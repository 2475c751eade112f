/*
 * The structural writer `_set_table` (stable.c:214-254): it mirrors a
 * caller table into a fresh slot attached to `parent[key]`, recursing into
 * nested tables with a depth counter capped by MAX_DEEP.
 */
module Writer {
  import opened Values
  import opened Heap

  /** The checks `_set_table` applies to one entry met at depth `deep`: the
      key is a key type, and the value is either a scalar or a nested table
      met below the cap (`nestedOk` says whether that table's own entries
      pass at `deep + 1`). */
  predicate EntryPasses(e: Entry, deep: nat, nestedOk: bool) {
    && IsKeyType(e.key)
    && if e.val.LTable? then deep <= MAX_DEEP && nestedOk else IsScalar(e.val)
  }

  /** Every entry of table `t`, written at depth `deep`, passes its checks,
      and so do the entries of its nested tables at their depths. */
  predicate Admissible(t: LuaValue, deep: nat)
    decreases t
  {
    && t.LTable?
    && forall j :: 0 <= j < |t.entries| ==>
         EntryPasses(t.entries[j], deep, Admissible(t.entries[j].val, deep + 1))
  }

  /** Entry `j` of `t` passes at depth `deep`. */
  predicate EntryAdmissible(t: LuaValue, j: nat, deep: nat)
    requires t.LTable? && j < |t.entries|
  {
    EntryPasses(t.entries[j], deep, Admissible(t.entries[j].val, deep + 1))
  }

  /** A table is admissible exactly when each of its entries is. */
  lemma AdmissibleEntries(t: LuaValue, deep: nat)
    requires t.LTable?
    ensures Admissible(t, deep) <==> forall j :: 0 <= j < |t.entries| ==> EntryAdmissible(t, j, deep)
  {
    if forall j :: 0 <= j < |t.entries| ==> EntryAdmissible(t, j, deep) {
      forall j | 0 <= j < |t.entries|
        ensures EntryPasses(t.entries[j], deep, Admissible(t.entries[j].val, deep + 1))
      {
        assert EntryAdmissible(t, j, deep);
      }
    }
  }

  /** Every key of `t` and of its nested tables is a key type and every
      other value a scalar: only the nesting can make writing it fail. */
  ghost predicate Shaped(t: LuaValue)
    decreases t
  {
    && t.LTable?
    && forall j :: 0 <= j < |t.entries| ==>
         && IsKeyType(t.entries[j].key)
         && (t.entries[j].val.LTable? ==> Shaped(t.entries[j].val))
         && (!t.entries[j].val.LTable? ==> IsScalar(t.entries[j].val))
  }

  /** The error entry `j` of `t` makes `_set_table` raise at depth `deep`,
      or None when the entry passes: "unexpect key type" for a bad key
      (stable.c:230), "the table is to deep" for a table met above the cap
      (stable.c:235-237), the nested table's own first error for a table
      below the cap, and "unexpect value type" for any other non-scalar
      (stable.c:266). */
  function EntryFailure(t: LuaValue, j: nat, deep: nat): (r: Option<Error>)
    requires t.LTable? && j < |t.entries|
    ensures r.None? <==> EntryAdmissible(t, j, deep)
    ensures r.Some? && IsKeyType(t.entries[j].key) && !t.entries[j].val.LTable? ==> r.value == UnexpectValueType
    ensures !IsKeyType(t.entries[j].key) ==> r == Some(UnexpectKeyType)
    decreases t, |t.entries| - j, 0
  {
    var e := t.entries[j];
    if !IsKeyType(e.key) then Some(UnexpectKeyType)
    else if e.val.LTable? then
      if deep > MAX_DEEP then Some(TooDeep)
      else
        AdmissibleEntries(e.val, deep + 1);
        FirstError(e.val, 0, deep + 1)
    else if !IsScalar(e.val) then Some(UnexpectValueType)
    else None
  }

  /** The error a write of entries `i..` of `t` raises: that of the first
      entry, in `lua_next` order, that fails; None when all pass. */
  function FirstError(t: LuaValue, i: nat, deep: nat): (r: Option<Error>)
    requires t.LTable? && i <= |t.entries|
    ensures r.None? <==> forall j :: i <= j < |t.entries| ==> EntryAdmissible(t, j, deep)
    decreases t, |t.entries| - i, 1
  {
    if i == |t.entries| then None
    else
      var f := EntryFailure(t, i, deep);
      if f.Some? then f else FirstError(t, i + 1, deep)
  }

  /** The first failing entry decides the error: when entries `i..f-1` pass
      and entry `f` fails, the write of entries `i..` raises entry `f`'s
      error. */
  lemma {:induction false} FirstErrorAt(t: LuaValue, i: nat, f: nat, deep: nat)
    requires t.LTable? && i <= f < |t.entries|
    requires forall j :: i <= j < f ==> EntryAdmissible(t, j, deep)
    requires !EntryAdmissible(t, f, deep)
    ensures FirstError(t, i, deep) == EntryFailure(t, f, deep)
    decreases f - i
  {
    if i < f {
      assert EntryAdmissible(t, i, deep);
      FirstErrorAt(t, i + 1, f, deep);
    }
  }

  /** `_set_table(L, deep)` with the parent slot, key and caller table on the
      stack: `_newtable` attaches a fresh slot to `parent[key]` first, then
      the entries are written one by one in the caller's order.

      The write is not atomic: an error part-way through leaves the fresh
      slot attached and the entries written so far in place. Whatever
      happens, `parent[key]` ends up a reference to the slot the counter
      pointed at, the rest of the store is only extended, and the call
      succeeds exactly when the table is admissible at `deep`. A nested call
      only happens below the cap, so `deep` never exceeds MAX_DEEP + 1. */
  function SetTable(s: Store, parent: nat, key: Key, t: LuaValue, deep: nat): (r: Outcome<()>)
    requires Valid(s) && parent in s.cache && t.LTable?
    requires deep <= MAX_DEEP + 1
    ensures Valid(r.store)
    ensures Extends(s, r.store, parent) && s.next < r.store.next
    ensures r.store.cache[parent] == s.cache[parent][key := Ref(s.next)]
    ensures s.next in r.store.cache
    ensures r.Ok? <==> Admissible(t, deep)
    ensures r.Raised? ==> FirstError(t, 0, deep) == Some(r.error)
    ensures Shaped(t) && r.Raised? ==> r.error == TooDeep
    decreases t, 1, 0
  {
    var (s1, np) := NewSlot(s, parent, key);
    AdmissibleEntries(t, deep);
    WriteEntries(s1, np, t, 0, deep)
  }

  /** The `lua_next` loop of `_set_table` from entry `i` on, writing into the
      fresh slot `np`. It only changes `np` and slots issued meanwhile, and
      it succeeds exactly when entries `i..` all pass. */
  function WriteEntries(s: Store, np: nat, t: LuaValue, i: nat, deep: nat): (r: Outcome<()>)
    requires Valid(s) && np in s.cache && t.LTable? && i <= |t.entries|
    requires deep <= MAX_DEEP + 1
    ensures Valid(r.store)
    ensures Extends(s, r.store, np)
    ensures r.Ok? <==> forall j :: i <= j < |t.entries| ==> EntryAdmissible(t, j, deep)
    ensures r.Raised? ==> FirstError(t, i, deep) == Some(r.error)
    ensures Shaped(t) && r.Raised? ==> r.error == TooDeep
    decreases t, 0, |t.entries| - i
  {
    if i == |t.entries| then Ok(s, ())
    else
      var e := t.entries[i];
      if !IsKeyType(e.key) then
        assert !EntryAdmissible(t, i, deep);
        Raised(s, UnexpectKeyType)
      else if e.val.LTable? then
        if deep > MAX_DEEP then
          assert !EntryAdmissible(t, i, deep);
          Raised(s, TooDeep)
        else
          var r1 := SetTable(s, np, ToKey(e.key), e.val, deep + 1);
          if r1.Raised? then
            assert !EntryAdmissible(t, i, deep);
            r1
          else
            var r2 := WriteEntries(r1.store, np, t, i + 1, deep);
            ExtendsTrans(s, r1.store, r2.store, np);
            assert EntryAdmissible(t, i, deep);
            r2
      else if !IsScalar(e.val) then
        assert !EntryAdmissible(t, i, deep);
        Raised(s, UnexpectValueType)
      else
        var s1 := PutSlot(s, np, ToKey(e.key), ScalarOf(e.val));
        var r2 := WriteEntries(s1, np, t, i + 1, deep);
        ExtendsTrans(s, s1, r2.store, np);
        assert EntryAdmissible(t, i, deep);
        r2
  }
}

/*
 * What a successful structural write leaves behind, and how deep a table
 * may be nested before the write fails.
 */
module WriterFacts {
  import opened Values
  import opened Heap
  import opened Writer

  /** A caller table as Lua builds it: no key appears twice, no value is
      nil, and nested tables are alike. */
  ghost predicate WellFormed(t: LuaValue)
    decreases t
  {
    && t.LTable?
    && (forall j1, j2 :: 0 <= j1 < j2 < |t.entries| ==> t.entries[j1].key != t.entries[j2].key)
    && (forall j :: 0 <= j < |t.entries| ==> !t.entries[j].val.LNil?)
    && (forall j :: 0 <= j < |t.entries| ==>
          t.entries[j].val.LTable? ==> WellFormed(t.entries[j].val))
  }

  /** The keys of the first `i` entries, as stored. */
  function KeysOf(t: LuaValue, i: nat): (ks: set<Key>)
    requires t.LTable? && i <= |t.entries|
  {
    set j | 0 <= j < i && IsKeyType(t.entries[j].key) :: ToKey(t.entries[j].key)
  }

  /** The slot that key `k` of slot `x` refers to, or ROOT when it holds no
      reference. */
  function Child(s: Store, x: nat, k: LuaValue): (c: nat) {
    if x in s.cache && IsKeyType(k) && ToKey(k) in s.cache[x] && s.cache[x][ToKey(k)].Ref?
    then s.cache[x][ToKey(k)].slot
    else ROOT
  }

  /** Entry `e` is stored in slot `x`: a scalar as its copy, a nested table
      as a reference to a younger slot (of which `nested` says whether it
      mirrors the nested table). */
  ghost predicate StoredAs(s: Store, x: nat, e: Entry, nested: bool) {
    && x in s.cache
    && IsKeyType(e.key)
    && ToKey(e.key) in s.cache[x]
    && var v := s.cache[x][ToKey(e.key)];
       if e.val.LTable? then v.Ref? && x < v.slot && nested
       else IsScalar(e.val) && v == ScalarOf(e.val)
  }

  /** Slot `x` holds exactly the caller table `t`: the same keys, each
      scalar copied, and each nested table mirrored by its own younger
      slot. */
  ghost predicate Mirrors(s: Store, x: nat, t: LuaValue)
    decreases t
  {
    && t.LTable?
    && x in s.cache
    && s.cache[x].Keys == KeysOf(t, |t.entries|)
    && forall j :: 0 <= j < |t.entries| ==>
         StoredAs(s, x, t.entries[j], Mirrors(s, Child(s, x, t.entries[j].key), t.entries[j].val))
  }

  /** Entry `j` of `t` is mirrored in slot `x`. */
  ghost predicate EntryMirrored(s: Store, x: nat, t: LuaValue, j: nat)
    requires t.LTable? && j < |t.entries|
  {
    StoredAs(s, x, t.entries[j], Mirrors(s, Child(s, x, t.entries[j].key), t.entries[j].val))
  }

  /** The first `f` entries of `t` are mirrored in `x`, which may hold
      other keys too. */
  ghost predicate EntriesMirrored(s: Store, x: nat, t: LuaValue, f: nat)
    requires t.LTable? && f <= |t.entries|
  {
    forall j :: 0 <= j < f ==> EntryMirrored(s, x, t, j)
  }

  /** The first `i` entries of `t` are mirrored in `x`, which holds no
      other key. */
  ghost predicate PrefixMirrored(s: Store, x: nat, t: LuaValue, i: nat)
    requires t.LTable? && i <= |t.entries|
  {
    && x in s.cache
    && s.cache[x].Keys == KeysOf(t, i)
    && forall j :: 0 <= j < i ==> EntryMirrored(s, x, t, j)
  }

  /** A mirror only depends on its own slot and younger ones. */
  lemma {:induction false} MirrorsFrame(s: Store, s': Store, x: nat, t: LuaValue)
    requires Mirrors(s, x, t)
    requires forall y :: y in s.cache && x <= y ==> y in s'.cache && s'.cache[y] == s.cache[y]
    ensures Mirrors(s', x, t)
    decreases t
  {
    forall j | 0 <= j < |t.entries|
      ensures StoredAs(s', x, t.entries[j], Mirrors(s', Child(s', x, t.entries[j].key), t.entries[j].val))
    {
      var e := t.entries[j];
      assert StoredAs(s, x, e, Mirrors(s, Child(s, x, e.key), e.val));
      assert Child(s', x, e.key) == Child(s, x, e.key);
      if e.val.LTable? {
        MirrorsFrame(s, s', Child(s, x, e.key), e.val);
      }
    }
  }

  /** A successful structural write of a well-formed table leaves the fresh
      slot it attached to `parent[key]` mirroring the table: every scalar
      entry reads back at its key and every nested table is its own fresh
      slot referenced from it. */
  lemma {:induction false} SetTableMirrors(s: Store, parent: nat, key: Key, t: LuaValue, deep: nat)
    requires Valid(s) && parent in s.cache && deep <= MAX_DEEP + 1
    requires WellFormed(t) && Admissible(t, deep)
    ensures SetTable(s, parent, key, t, deep).Ok?
    ensures Mirrors(SetTable(s, parent, key, t, deep).store, s.next, t)
    decreases t, 1, 0, 0
  {
    var (s1, np) := NewSlot(s, parent, key);
    AdmissibleEntries(t, deep);
    assert PrefixMirrored(s1, np, t, 0);
    WriteEntriesMirrors(s1, np, t, 0, deep);
  }

  lemma {:induction false} WriteEntriesMirrors(s: Store, np: nat, t: LuaValue, i: nat, deep: nat)
    requires Valid(s) && np in s.cache && t.LTable? && i <= |t.entries| && deep <= MAX_DEEP + 1
    requires WellFormed(t)
    requires forall j :: i <= j < |t.entries| ==> EntryAdmissible(t, j, deep)
    requires PrefixMirrored(s, np, t, i)
    ensures WriteEntries(s, np, t, i, deep).Ok?
    ensures Mirrors(WriteEntries(s, np, t, i, deep).store, np, t)
    decreases t, 0, |t.entries| - i, 2
  {
    if i == |t.entries| {
      assert Mirrors(s, np, t) by {
        forall j | 0 <= j < |t.entries|
          ensures StoredAs(s, np, t.entries[j], Mirrors(s, Child(s, np, t.entries[j].key), t.entries[j].val))
        {
          assert EntryMirrored(s, np, t, j);
        }
      }
    } else {
      var s' := EntryStep(s, np, t, i, deep);
      WriteEntriesMirrors(s', np, t, i + 1, deep);
    }
  }

  /** One round of the entry loop on an admissible entry: it extends the
      mirrored prefix, and the loop goes on from the store it leaves. */
  lemma {:induction false} EntryStep(s: Store, np: nat, t: LuaValue, i: nat, deep: nat) returns (s': Store)
    requires Valid(s) && np in s.cache && t.LTable? && i < |t.entries| && deep <= MAX_DEEP + 1
    requires WellFormed(t) && EntryAdmissible(t, i, deep)
    requires PrefixMirrored(s, np, t, i)
    ensures Valid(s') && np in s'.cache && PrefixMirrored(s', np, t, i + 1)
    ensures WriteEntries(s, np, t, i, deep) == WriteEntries(s', np, t, i + 1, deep)
    decreases t, 0, |t.entries| - i, 1
  {
    if t.entries[i].val.LTable? {
      s' := TableEntryStep(s, np, t, i, deep);
    } else {
      s' := ScalarEntryStep(s, np, t, i, deep);
    }
  }

  /** The round for a nested table: the nested write succeeds and its slot
      mirrors the nested table. */
  lemma {:induction false} TableEntryStep(s: Store, np: nat, t: LuaValue, i: nat, deep: nat) returns (s': Store)
    requires Valid(s) && np in s.cache && t.LTable? && i < |t.entries| && deep <= MAX_DEEP + 1
    requires WellFormed(t) && EntryAdmissible(t, i, deep) && t.entries[i].val.LTable?
    requires PrefixMirrored(s, np, t, i)
    ensures Valid(s') && np in s'.cache && PrefixMirrored(s', np, t, i + 1)
    ensures WriteEntries(s, np, t, i, deep) == WriteEntries(s', np, t, i + 1, deep)
    decreases t, 0, |t.entries| - i, 0
  {
    var e := t.entries[i];
    var k := ToKey(e.key);
    SetTableMirrors(s, np, k, e.val, deep + 1);
    s' := SetTable(s, np, k, e.val, deep + 1).store;
    assert Child(s', np, e.key) == s.next;
    assert EntryMirrored(s', np, t, i);
    PrefixStep(s, s', np, t, i, Ref(s.next));
  }

  /** The round for a scalar: it is stored as its copy. */
  lemma ScalarEntryStep(s: Store, np: nat, t: LuaValue, i: nat, deep: nat) returns (s': Store)
    requires Valid(s) && np in s.cache && t.LTable? && i < |t.entries| && deep <= MAX_DEEP + 1
    requires WellFormed(t) && EntryAdmissible(t, i, deep) && !t.entries[i].val.LTable?
    requires PrefixMirrored(s, np, t, i)
    ensures Valid(s') && np in s'.cache && PrefixMirrored(s', np, t, i + 1)
    ensures WriteEntries(s, np, t, i, deep) == WriteEntries(s', np, t, i + 1, deep)
  {
    var e := t.entries[i];
    assert IsKeyType(e.key) && IsScalar(e.val);
    var k := ToKey(e.key);
    s' := PutSlot(s, np, k, ScalarOf(e.val));
    assert s'.cache[np] == s.cache[np][k := ScalarOf(e.val)];
    assert EntryMirrored(s', np, t, i);
    PrefixStep(s, s', np, t, i, ScalarOf(e.val));
  }

  /** Writing entry `i` into slot `np` after a mirrored prefix extends the
      mirrored prefix by one: the earlier entries have other keys, and the
      slots their nested tables live in are left alone. */
  lemma PrefixStep(s: Store, s': Store, np: nat, t: LuaValue, i: nat, w: Value)
    requires Valid(s) && t.LTable? && i < |t.entries| && WellFormed(t)
    requires IsKeyType(t.entries[i].key)
    requires PrefixMirrored(s, np, t, i)
    requires Extends(s, s', np) && np in s'.cache
    requires s'.cache[np] == s.cache[np][ToKey(t.entries[i].key) := w]
    requires EntryMirrored(s', np, t, i)
    ensures PrefixMirrored(s', np, t, i + 1)
  {
    var e := t.entries[i];
    assert s'.cache[np].Keys == KeysOf(t, i + 1);
    forall j | 0 <= j < i
      ensures EntryMirrored(s', np, t, j)
    {
      EarlierEntryKept(s, s', np, t, i, j, w);
    }
  }

  /** An entry mirrored before entry `i` was written is still mirrored: its
      key differs from entry `i`'s, and the slot of its nested table is
      younger than `np` and so left alone. */
  lemma EarlierEntryKept(s: Store, s': Store, np: nat, t: LuaValue, i: nat, j: nat, w: Value)
    requires Valid(s) && t.LTable? && j < i < |t.entries| && WellFormed(t)
    requires IsKeyType(t.entries[i].key)
    requires EntryMirrored(s, np, t, j)
    requires Extends(s, s', np) && np in s'.cache
    requires s'.cache[np] == s.cache[np][ToKey(t.entries[i].key) := w]
    ensures EntryMirrored(s', np, t, j)
  {
    var ej := t.entries[j];
    assert ej.key != t.entries[i].key;
    assert ToKey(ej.key) != ToKey(t.entries[i].key);
    assert Child(s', np, ej.key) == Child(s, np, ej.key);
    if ej.val.LTable? {
      MirrorsFrame(s, s', Child(s, np, ej.key), ej.val);
    }
  }

  /** A structural write that fails at entry `f` raises entry `f`'s error
      and is not undone: the slot it attached keeps every entry before `f`
      mirrored. */
  lemma SetTableFails(s: Store, parent: nat, key: Key, t: LuaValue, deep: nat, f: nat)
    requires Valid(s) && parent in s.cache && deep <= MAX_DEEP + 1
    requires WellFormed(t) && f < |t.entries|
    requires forall j :: 0 <= j < f ==> EntryAdmissible(t, j, deep)
    requires !EntryAdmissible(t, f, deep)
    ensures var r := SetTable(s, parent, key, t, deep);
            && r.Raised?
            && Some(r.error) == EntryFailure(t, f, deep)
            && s.next in r.store.cache
            && EntriesMirrored(r.store, s.next, t, f)
  {
    var (s1, np) := NewSlot(s, parent, key);
    assert PrefixMirrored(s1, np, t, 0);
    WriteEntriesFails(s1, np, t, 0, deep, f);
  }

  /** The entry loop from `i` on, given a mirrored prefix, stops at the
      first failing entry `f` with its error and leaves entries before `f`
      mirrored in `np`. */
  lemma {:induction false} WriteEntriesFails(s: Store, np: nat, t: LuaValue, i: nat, deep: nat, f: nat)
    requires Valid(s) && np in s.cache && t.LTable? && deep <= MAX_DEEP + 1
    requires WellFormed(t) && i <= f < |t.entries|
    requires forall j :: i <= j < f ==> EntryAdmissible(t, j, deep)
    requires !EntryAdmissible(t, f, deep)
    requires PrefixMirrored(s, np, t, i)
    ensures var r := WriteEntries(s, np, t, i, deep);
            && r.Raised?
            && Some(r.error) == EntryFailure(t, f, deep)
            && EntriesMirrored(r.store, np, t, f)
    decreases |t.entries| - i, 1
  {
    if i < f {
      PassingEntryThenFails(s, np, t, i, deep, f);
    } else {
      FailingEntry(s, np, t, f, deep);
    }
  }

  /** A passing entry before the failing one: the loop goes on from the
      store it leaves, with a mirrored prefix one longer. */
  lemma {:induction false} PassingEntryThenFails(s: Store, np: nat, t: LuaValue, i: nat, deep: nat, f: nat)
    requires Valid(s) && np in s.cache && t.LTable? && deep <= MAX_DEEP + 1
    requires WellFormed(t) && i < f < |t.entries|
    requires forall j :: i <= j < f ==> EntryAdmissible(t, j, deep)
    requires !EntryAdmissible(t, f, deep)
    requires PrefixMirrored(s, np, t, i)
    ensures var r := WriteEntries(s, np, t, i, deep);
            && r.Raised?
            && Some(r.error) == EntryFailure(t, f, deep)
            && EntriesMirrored(r.store, np, t, f)
    decreases |t.entries| - i, 0
  {
    assert EntryAdmissible(t, i, deep);
    var s' := EntryStep(s, np, t, i, deep);
    WriteEntriesFails(s', np, t, i + 1, deep, f);
  }

  /** The failing entry itself raises its own error. Either nothing is
      written, or the nested write attaches a fresh slot under a key no
      earlier entry has, so the earlier entries stay mirrored. */
  lemma FailingEntry(s: Store, np: nat, t: LuaValue, f: nat, deep: nat)
    requires Valid(s) && np in s.cache && t.LTable? && deep <= MAX_DEEP + 1
    requires WellFormed(t) && f < |t.entries|
    requires !EntryAdmissible(t, f, deep)
    requires PrefixMirrored(s, np, t, f)
    ensures var r := WriteEntries(s, np, t, f, deep);
            && r.Raised?
            && Some(r.error) == EntryFailure(t, f, deep)
            && EntriesMirrored(r.store, np, t, f)
  {
    var e := t.entries[f];
    var r := WriteEntries(s, np, t, f, deep);
    if IsKeyType(e.key) && e.val.LTable? && deep <= MAX_DEEP {
      var r1 := SetTable(s, np, ToKey(e.key), e.val, deep + 1);
      assert r == r1;
      forall j | 0 <= j < f
        ensures EntryMirrored(r.store, np, t, j)
      {
        EarlierEntryKept(s, r.store, np, t, f, j, Ref(s.next));
      }
    } else {
      assert r.store == s;
    }
  }

  /** `v` holds at most `d` levels of nested tables (a table with no table
      inside it has one level). */
  ghost predicate DepthAtMost(v: LuaValue, d: nat)
    decreases v
  {
    v.LTable? ==>
      && d >= 1
      && forall j :: 0 <= j < |v.entries| ==> DepthAtMost(v.entries[j].val, d - 1)
  }

  /** The nesting cap: a well-shaped table written at depth `deep` succeeds
      exactly when it has at most MAX_DEEP + 2 - `deep` levels. A table is
      refused only when a nested table is met with the counter above
      MAX_DEEP, and the counter of the outermost table is 0, so a write
      through `set` accepts MAX_DEEP + 2 = 18 levels and refuses 19. */
  lemma {:induction false} DepthCap(t: LuaValue, deep: nat)
    requires Shaped(t) && deep <= MAX_DEEP + 1
    ensures Admissible(t, deep) <==> DepthAtMost(t, MAX_DEEP + 2 - deep)
    decreases t
  {
    forall j | 0 <= j < |t.entries| && t.entries[j].val.LTable?
      ensures deep <= MAX_DEEP && Admissible(t.entries[j].val, deep + 1)
              <==> DepthAtMost(t.entries[j].val, MAX_DEEP + 2 - deep - 1)
    {
      var c := t.entries[j].val;
      if deep <= MAX_DEEP {
        DepthCap(c, deep + 1);
      } else {
        assert !DepthAtMost(c, 0);
      }
    }
    if Admissible(t, deep) {
      forall j | 0 <= j < |t.entries|
        ensures DepthAtMost(t.entries[j].val, MAX_DEEP + 2 - deep - 1)
      {
        assert EntryPasses(t.entries[j], deep, Admissible(t.entries[j].val, deep + 1));
      }
    }
    if DepthAtMost(t, MAX_DEEP + 2 - deep) {
      forall j | 0 <= j < |t.entries|
        ensures EntryPasses(t.entries[j], deep, Admissible(t.entries[j].val, deep + 1))
      {
        assert DepthAtMost(t.entries[j].val, MAX_DEEP + 2 - deep - 1);
      }
    }
  }
}
