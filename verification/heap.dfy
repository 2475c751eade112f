/*
 * The store's private heap (stable.c: `_INSTANCE`, `_init_instance`,
 * `_new_cachevalue`, `_get_cachevalue` and the slot allocation inside
 * `_newtable`): a map from slot id to container plus the allocation
 * counter `slot_point`, modelled as a natural number.
 */
module Heap {
  import opened Values

  /** A stored container: keys to non-nil values. */
  type Container = map<Key, Value>

  /** The whole store: the `__stable_cache` table and the counter. */
  datatype Store = Store(cache: map<nat, Container>, next: nat)

  /** The slot of the `global` handle (the NULL light userdata). */
  const ROOT: nat := 0

  /** `MAX_DEEP`, the nesting cap of structural writes. */
  const MAX_DEEP: nat := 16

  /** The result of an operation that may raise. A raised error aborts the
      call but not the store: whatever was written before the error stays,
      so the store is carried on both branches. */
  datatype Outcome<+T> = Ok(store: Store, value: T) | Raised(store: Store, error: Error)

  /** What a Lua table read yields: the stored value, or nil when absent. */
  function Lookup(c: Container, k: Key): (v: Value) {
    if k in c then c[k] else Nil
  }

  /** A Lua table assignment: assigning nil removes the key. Afterwards the
      key reads as the assigned value and no other key changes. */
  function Put(c: Container, k: Key, v: Value): (r: Container)
    ensures Lookup(r, k) == v
    ensures forall k' :: k' != k ==> Lookup(r, k') == Lookup(c, k')
  {
    if v == Nil then c - {k} else c[k := v]
  }

  /** A value is well stored in slot `x` when it is not nil and, if it is a
      reference, it names an existing slot allocated after `x`. */
  ghost predicate WellStored(s: Store, x: nat, v: Value) {
    v != Nil && (v.Ref? ==> x < v.slot && v.slot in s.cache)
  }

  /** The value at key `k` of slot `x`, or nil when there is none. */
  ghost function RefAt(s: Store, x: nat, k: Key): (v: Value) {
    if x in s.cache && k in s.cache[x] then s.cache[x][k] else Nil
  }

  /** No two places (slot, key) hold a reference to the same slot: every
      slot has at most one referrer, so the references form a forest. */
  ghost predicate UniqueRefs(s: Store) {
    forall x1, k1, x2, k2 ::
      RefAt(s, x1, k1).Ref? && RefAt(s, x1, k1) == RefAt(s, x2, k2) ==> x1 == x2 && k1 == k2
  }

  /** The store invariant: ROOT exists, every slot id was issued by the
      counter, every stored reference names a live, younger slot (so
      references never form a cycle through the public operations), and
      no slot is referenced from two places. */
  ghost predicate Valid(s: Store) {
    && ROOT in s.cache
    && (forall x :: x in s.cache ==> x < s.next)
    && (forall x, k :: x in s.cache && k in s.cache[x] ==> WellStored(s, x, s.cache[x][k]))
    && UniqueRefs(s)
  }

  /** `_init_instance`: ROOT holds an empty container and the counter
      points past it. */
  function Init(): (s: Store)
    ensures Valid(s)
    ensures s.cache.Keys == {ROOT} && s.cache[ROOT] == map[]
    ensures ROOT < s.next
  {
    Store(map[ROOT := map[]], ROOT + 1)
  }

  /** `s2` extends `s1` touching only slot `p`: the counter never goes back,
      no slot disappears, slots other than `p` keep their containers, and
      every slot that appears was issued by the counter in between. */
  ghost predicate Extends(s1: Store, s2: Store, p: nat) {
    && s1.next <= s2.next
    && (forall x :: x in s1.cache ==> x in s2.cache)
    && (forall x :: x in s1.cache && x != p ==> s2.cache[x] == s1.cache[x])
    && (forall x :: x in s2.cache && x !in s1.cache ==> s1.next <= x < s2.next)
  }

  lemma ExtendsTrans(s1: Store, s2: Store, s3: Store, p: nat)
    requires Extends(s1, s2, p) && Extends(s2, s3, p)
    ensures Extends(s1, s3, p)
  {
  }

  /** The core of `_newtable`: `parent[key]` becomes a reference to the
      slot the counter points at, that slot gets an empty container, and
      the counter moves on. The new id was never issued before, so no live
      slot and no stored reference can already name it. */
  function NewSlot(s: Store, parent: nat, key: Key): (r: (Store, nat))
    requires Valid(s) && parent in s.cache
    ensures forall x :: x in s.cache ==> x < r.1
    ensures r.0.next == r.1 + 1 && s.next <= r.1
    ensures r.0.cache.Keys == s.cache.Keys + {r.1}
    ensures r.0.cache[r.1] == map[]
    ensures r.0.cache[parent] == s.cache[parent][key := Ref(r.1)]
    ensures Extends(s, r.0, parent)
    ensures Valid(r.0)
  {
    var np := s.next;
    var withRef := s.cache[parent := s.cache[parent][key := Ref(np)]];
    NewSlotUnique(s, parent, key);
    (Store(withRef[np := map[]], np + 1), np)
  }

  /** The reference to the new slot is the only one: every older reference
      names a live slot, and the counter is above every live slot. */
  lemma NewSlotUnique(s: Store, parent: nat, key: Key)
    requires Valid(s) && parent in s.cache
    ensures UniqueRefs(Store(s.cache[parent := s.cache[parent][key := Ref(s.next)]][s.next := map[]], s.next + 1))
  {
    var t := Store(s.cache[parent := s.cache[parent][key := Ref(s.next)]][s.next := map[]], s.next + 1);
    forall x1, k1, x2, k2 | RefAt(t, x1, k1).Ref? && RefAt(t, x1, k1) == RefAt(t, x2, k2)
      ensures x1 == x2 && k1 == k2
    {
      if !(x1 == parent && k1 == key) {
        assert RefAt(t, x1, k1) == RefAt(s, x1, k1);
        assert WellStored(s, x1, s.cache[x1][k1]);
      }
      if !(x2 == parent && k2 == key) {
        assert RefAt(t, x2, k2) == RefAt(s, x2, k2);
        assert WellStored(s, x2, s.cache[x2][k2]);
      }
    }
  }

  /** Replacing a slot's container keeps references unique when every
      reference in the new container was already at the same key. */
  lemma ReplaceUnique(s: Store, x: nat, c: Container)
    requires UniqueRefs(s) && x in s.cache
    requires forall k :: k in c && c[k].Ref? ==> k in s.cache[x] && s.cache[x][k] == c[k]
    ensures UniqueRefs(Store(s.cache[x := c], s.next))
  {
    var t := Store(s.cache[x := c], s.next);
    forall x1, k1, x2, k2 | RefAt(t, x1, k1).Ref? && RefAt(t, x1, k1) == RefAt(t, x2, k2)
      ensures x1 == x2 && k1 == k2
    {
      assert RefAt(t, x1, k1) == RefAt(s, x1, k1);
      assert RefAt(t, x2, k2) == RefAt(s, x2, k2);
    }
  }

  /** Dropping whole slots keeps references unique. */
  lemma SubStoreUnique(s: Store, r: Store)
    requires UniqueRefs(s)
    requires forall x :: x in r.cache ==> x in s.cache && r.cache[x] == s.cache[x]
    ensures UniqueRefs(r)
  {
    forall x1, k1, x2, k2 | RefAt(r, x1, k1).Ref? && RefAt(r, x1, k1) == RefAt(r, x2, k2)
      ensures x1 == x2 && k1 == k2
    {
      assert RefAt(r, x1, k1) == RefAt(s, x1, k1);
      assert RefAt(r, x2, k2) == RefAt(s, x2, k2);
    }
  }

  /** A scalar assignment into an existing slot (the store side of `_set`). */
  function PutSlot(s: Store, x: nat, k: Key, v: Value): (r: Store)
    requires x in s.cache
    ensures Extends(s, r, x) && r.next == s.next && r.cache.Keys == s.cache.Keys
    ensures Lookup(r.cache[x], k) == v
    ensures forall k' :: k' != k ==> Lookup(r.cache[x], k') == Lookup(s.cache[x], k')
    ensures Valid(s) && !v.Ref? ==> Valid(r)
  {
    PutUnique(s, x, k, v);
    Store(s.cache[x := Put(s.cache[x], k, v)], s.next)
  }

  /** A scalar assignment adds no reference, so references stay unique. */
  lemma PutUnique(s: Store, x: nat, k: Key, v: Value)
    requires x in s.cache
    ensures UniqueRefs(s) && !v.Ref? ==> UniqueRefs(Store(s.cache[x := Put(s.cache[x], k, v)], s.next))
  {
    if UniqueRefs(s) && !v.Ref? {
      var c := Put(s.cache[x], k, v);
      forall k' | k' in c && c[k'].Ref? ensures k' in s.cache[x] && s.cache[x][k'] == c[k'] {
        assert Lookup(c, k') == Lookup(s.cache[x], k');
      }
      ReplaceUnique(s, x, c);
    }
  }
}
