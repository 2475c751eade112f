/*
 * The operations a caller reaches through the `stable` module table and
 * the proxy metatable (stable.c: `_newtable`, `_set`, `_get`; `__index` and
 * `__newindex` dispatch to `_get` and `_set`).
 */
module Proxy {
  import opened Values
  import opened Heap
  import opened Writer

  /** `stable.global`: the handle of ROOT. */
  const Global: LuaValue := LHandle(ROOT)

  /** `_get` (`__index`): a handle and a key of key type read the stored
      value, copied back to the caller; an absent key reads as nil. */
  function Get(s: Store, h: LuaValue, k: LuaValue): (r: Result<LuaValue, Error>)
    requires h.LHandle? && IsKeyType(k) ==> h.p in s.cache
    ensures !h.LHandle? ==> r == Failure(ErrorStableType)
    ensures h.LHandle? && !IsKeyType(k) ==> r == Failure(UnexpectKeyType)
    ensures h.LHandle? && IsKeyType(k) ==>
              r.Success? && CopyIn(r.value) == Success(Lookup(s.cache[h.p], ToKey(k)))
  {
    if !h.LHandle? then Failure(ErrorStableType)
    else if !IsKeyType(k) then Failure(UnexpectKeyType)
    else Success(CopyOut(Lookup(s.cache[h.p], ToKey(k))))
  }

  /** `_newtable` (`stable.newtable(h, k)`): `h[k]` becomes the handle of a
      fresh, empty slot, which is returned. The id is the counter's, above
      every id issued so far, so ids are never reused; nothing else in the
      store changes. A key `_copy_value` cannot carry fails with
      "unsport type"; a nil or handle key, or a collected slot, aborts
      inside the private state and is excluded. */
  function NewTable(s: Store, h: LuaValue, k: LuaValue): (r: Outcome<LuaValue>)
    requires Valid(s)
    requires h.LHandle? && Copyable(k) ==> IsKeyType(k) && h.p in s.cache
    ensures Valid(r.store)
    ensures !h.LHandle? ==> r == Raised(s, ErrorStableType)
    ensures h.LHandle? && !Copyable(k) ==> r == Raised(s, UnsupportedType)
    ensures h.LHandle? && Copyable(k) ==>
              && r.Ok?
              && Extends(s, r.store, h.p)
              && r.value == LHandle(s.next)
              && (forall x :: x in s.cache ==> x < r.value.p)
              && r.store.next == r.value.p + 1
              && Get(r.store, h, k) == Success(r.value)
              && r.store.cache[r.value.p] == map[]
              && (forall k' :: IsKeyType(k') && k' != k ==> Get(r.store, h, k') == Get(s, h, k'))
  {
    if !h.LHandle? then Raised(s, ErrorStableType)
    else if !Copyable(k) then Raised(s, UnsupportedType)
    else
      var (s1, np) := NewSlot(s, h.p, ToKey(k));
      Ok(s1, LHandle(np))
  }

  /** `_set` (`__newindex`). A scalar write stores the value so that `get`
      reads it back (nil deletes the key) and leaves every other key and
      slot alone; a table is handed to the structural writer with depth 0,
      after which `h[k]` is the handle of the fresh slot even when the write
      fails part-way. A handle or any non-scalar, non-table value cannot be
      stored: references only ever come from `newtable` and the writer. */
  function Set(s: Store, h: LuaValue, k: LuaValue, v: LuaValue): (r: Outcome<()>)
    requires Valid(s)
    requires h.LHandle? && IsKeyType(k) && (v.LTable? || IsScalar(v)) ==> h.p in s.cache
    ensures Valid(r.store)
    ensures !h.LHandle? ==> r == Raised(s, ErrorStableType)
    ensures h.LHandle? && !IsKeyType(k) ==> r == Raised(s, UnexpectKeyType)
    ensures h.LHandle? && IsKeyType(k) && !v.LTable? && !IsScalar(v) ==>
              r == Raised(s, UnexpectValueType)
    ensures h.LHandle? && IsKeyType(k) && (v.LTable? || IsScalar(v)) ==>
              && Extends(s, r.store, h.p)
              && (forall k' :: IsKeyType(k') && k' != k ==> Get(r.store, h, k') == Get(s, h, k'))
    ensures h.LHandle? && IsKeyType(k) && IsScalar(v) ==>
              && r.Ok?
              && Get(r.store, h, k) == Success(v)
              && r.store.cache.Keys == s.cache.Keys
              && r.store.next == s.next
    ensures h.LHandle? && IsKeyType(k) && v.LTable? ==>
              && (r.Ok? <==> Admissible(v, 0))
              && (r.Raised? ==> FirstError(v, 0, 0) == Some(r.error))
              && (Shaped(v) && r.Raised? ==> r.error == TooDeep)
              && Get(r.store, h, k) == Success(LHandle(s.next))
              && s.next !in s.cache
  {
    if !h.LHandle? then Raised(s, ErrorStableType)
    else if !IsKeyType(k) then Raised(s, UnexpectKeyType)
    else if v.LTable? then SetTable(s, h.p, ToKey(k), v, 0)
    else if !IsScalar(v) then Raised(s, UnexpectValueType)
    else Ok(PutSlot(s, h.p, ToKey(k), ScalarOf(v)), ())
  }
}

/*
 * Properties of sequences of proxy operations: structural writes read back
 * through `get`, the nesting limit on concrete tables, and persistence of
 * a write across caller states.
 */
module ProxyFacts {
  import opened Values
  import opened Heap
  import opened Writer
  import opened WriterFacts
  import opened Proxy

  /** `set(h, k, t)` with a well-formed, admissible caller table stores the
      handle of a slot never issued before at `h[k]`, and that slot mirrors
      `t`: each scalar entry reads back at its key, and each nested table is
      its own fresh slot referenced from it. */
  lemma StructuralWrite(s: Store, h: nat, k: LuaValue, t: LuaValue)
    requires Valid(s) && h in s.cache && IsKeyType(k)
    requires WellFormed(t) && Admissible(t, 0)
    ensures Set(s, LHandle(h), k, t).Ok?
    ensures Get(Set(s, LHandle(h), k, t).store, LHandle(h), k) == Success(LHandle(s.next))
    ensures s.next !in s.cache && h < s.next
    ensures Mirrors(Set(s, LHandle(h), k, t).store, s.next, t)
  {
    SetTableMirrors(s, h, ToKey(k), t, 0);
  }

  /** `set(h, k, t)` that fails at entry `f` of `t` raises that entry's
      error, yet `h[k]` is already the handle of a fresh slot, and the
      entries before `f` read back from it: the write is not undone. */
  lemma StructuralWriteFails(s: Store, h: nat, k: LuaValue, t: LuaValue, f: nat)
    requires Valid(s) && h in s.cache && IsKeyType(k)
    requires WellFormed(t) && f < |t.entries|
    requires forall j :: 0 <= j < f ==> EntryAdmissible(t, j, 0)
    requires !EntryAdmissible(t, f, 0)
    ensures var r := Set(s, LHandle(h), k, t);
            && r.Raised?
            && Some(r.error) == EntryFailure(t, f, 0)
            && Get(r.store, LHandle(h), k) == Success(LHandle(s.next))
            && s.next in r.store.cache
            && EntriesMirrored(r.store, s.next, t, f)
  {
    SetTableFails(s, h, ToKey(k), t, 0, f);
  }

  /** `{a = 1, b = print}` in that order: writing it at `global.x` raises
      "unexpect value type" for `b`, but `global.x.a` already reads 1. */
  lemma PartialWriteStays()
    ensures var t := LTable([Entry(LStr("a"), LNum(1)), Entry(LStr("b"), LOther)]);
            var r := Set(Init(), Global, LStr("x"), t);
            && r.Raised? && r.error == UnexpectValueType
            && Get(r.store, Global, LStr("x")) == Success(LHandle(1))
            && 1 in r.store.cache
            && Get(r.store, LHandle(1), LStr("a")) == Success(LNum(1))
  {
    var t := LTable([Entry(LStr("a"), LNum(1)), Entry(LStr("b"), LOther)]);
    var s0 := Init();
    assert s0.next == 1 && EntryAdmissible(t, 0, 0);
    StructuralWriteFails(s0, ROOT, LStr("x"), t, 1);
    var r := Set(s0, Global, LStr("x"), t);
    assert EntriesMirrored(r.store, 1, t, 1);
    assert EntryMirrored(r.store, 1, t, 0);
    var c := r.store.cache[1];
    assert c[KStr("a")] == ScalarOf(LNum(1));
  }

  /** The table `{a = 1, b = {c = 2}}`, in some `lua_next` order. */
  function Sample(): (t: LuaValue) {
    LTable([Entry(LStr("a"), LNum(1)),
            Entry(LStr("b"), LTable([Entry(LStr("c"), LNum(2))]))])
  }

  /** Reading a mirrored entry through `get`: a scalar entry reads back as
      itself, and a nested table reads back as the handle of a younger slot
      that mirrors it. */
  lemma MirrorReadsBack(s: Store, x: nat, t: LuaValue, j: nat)
    requires Mirrors(s, x, t) && j < |t.entries|
    ensures IsKeyType(t.entries[j].key)
    ensures !t.entries[j].val.LTable? ==> Get(s, LHandle(x), t.entries[j].key) == Success(t.entries[j].val)
    ensures t.entries[j].val.LTable? ==>
              && Get(s, LHandle(x), t.entries[j].key) == Success(LHandle(Child(s, x, t.entries[j].key)))
              && x < Child(s, x, t.entries[j].key)
              && Mirrors(s, Child(s, x, t.entries[j].key), t.entries[j].val)
  {
    assert StoredAs(s, x, t.entries[j], Mirrors(s, Child(s, x, t.entries[j].key), t.entries[j].val));
  }

  /** Writing `{a = 1, b = {c = 2}}` at `h.x` and reading `h.x.b.c` yields 2;
      the slots of `h.x` and `h.x.b` are distinct from each other and from
      `h`. */
  lemma NestedReadBack(s: Store, h: nat) returns (x: nat, b: nat)
    requires Valid(s) && h in s.cache
    ensures var r := Set(s, LHandle(h), LStr("x"), Sample());
            && r.Ok? && h < x < b && x in r.store.cache && b in r.store.cache
            && Get(r.store, LHandle(h), LStr("x")) == Success(LHandle(x))
            && Get(r.store, LHandle(x), LStr("a")) == Success(LNum(1))
            && Get(r.store, LHandle(x), LStr("b")) == Success(LHandle(b))
            && Get(r.store, LHandle(b), LStr("c")) == Success(LNum(2))
  {
    var t := Sample();
    var inner := t.entries[1].val;
    assert WellFormed(inner);
    assert WellFormed(t);
    assert Admissible(inner, 1) by {
      assert EntryPasses(inner.entries[0], 1, Admissible(inner.entries[0].val, 2));
    }
    assert Admissible(t, 0) by {
      assert EntryPasses(t.entries[0], 0, Admissible(t.entries[0].val, 1));
      assert EntryPasses(t.entries[1], 0, Admissible(t.entries[1].val, 1));
    }
    StructuralWrite(s, h, LStr("x"), t);
    var st := Set(s, LHandle(h), LStr("x"), t).store;
    x := s.next;
    MirrorReadsBack(st, x, t, 0);
    MirrorReadsBack(st, x, t, 1);
    b := Child(st, x, LStr("b"));
    MirrorReadsBack(st, b, inner, 0);
  }

  /** A table of `n` levels: `{x = {x = ... {}}}`. */
  function Nested(n: nat): (t: LuaValue)
    requires n >= 1
    ensures t.LTable?
  {
    if n == 1 then LTable([]) else LTable([Entry(LStr("x"), Nested(n - 1))])
  }

  lemma {:induction false} NestedLevels(n: nat, d: nat)
    requires n >= 1
    ensures Shaped(Nested(n)) && WellFormed(Nested(n))
    ensures DepthAtMost(Nested(n), d) <==> n <= d
  {
    if n > 1 {
      NestedLevels(n - 1, if d == 0 then 0 else d - 1);
      assert Nested(n).entries[0].val == Nested(n - 1);
    }
  }

  /** A table of `n` levels passes the writer's checks from depth 0 exactly
      when `n` is at most MAX_DEEP + 2, and only its depth can fail it. */
  lemma NestedAdmissible(n: nat)
    requires n >= 1
    ensures Shaped(Nested(n))
    ensures Admissible(Nested(n), 0) <==> n <= MAX_DEEP + 2
  {
    NestedLevels(n, MAX_DEEP + 2 - 0);
    DepthCap(Nested(n), 0);
  }

  /** The nesting limit as a caller sees it: a table of `n` levels is
      written when `n` is at most MAX_DEEP + 2 = 18, and fails with "the
      table is to deep" from 19 levels on. */
  lemma DepthLimit(s: Store, h: nat, k: LuaValue, n: nat)
    requires Valid(s) && h in s.cache && IsKeyType(k) && n >= 1
    ensures n <= MAX_DEEP + 2 ==> Set(s, LHandle(h), k, Nested(n)).Ok?
    ensures n > MAX_DEEP + 2 ==>
              var r := Set(s, LHandle(h), k, Nested(n)); r.Raised? && r.error == TooDeep
  {
    NestedAdmissible(n);
  }

  /** `test.c`: `stable.global.hello = 'world'` in one caller state is read
      back as 'world' from a later, separate caller state, since both
      reach the same store. */
  lemma PersistsAcrossCallers()
    ensures
      var s1 := Set(Init(), Global, LStr("hello"), LStr("world")).store;
      Get(s1, Global, LStr("hello")) == Success(LStr("world"))
  {
  }
}
