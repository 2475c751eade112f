# stable — a verified model of a process-wide Lua table store

`stable` is a Lua C module (stable.c). It keeps one private Lua state per
process. Any caller's Lua state can store nested tables of numbers,
booleans and strings in that private state and read them back. A caller
never holds a store table itself, only a light-userdata *handle*: the slot
id of a container in the private `__stable_cache` table. ROOT, the NULL
handle, is exposed as `stable.global`.

This project models the store in Dafny as pure functions and methods over
an immutable `Store` (a map from slot id to container, plus the allocation
counter `slot_point`):

- `Values`: the caller and store value kinds, and the boundary checks
  `_check_key`, `_check_value`, `_check_table` and `_copy_value`.
- `Heap`: the store, its invariant `Valid`, `_init_instance`, slot
  allocation, and the scalar write into a slot. `Valid` says that every
  reference names a live, younger slot, and that no slot is referenced
  from two places.
- `Writer` and `WriterFacts`: the structural writer `_set_table`, with the
  `MAX_DEEP` nesting cap, and what a successful write leaves behind.
- `Proxy` and `ProxyFacts`: `get`, `set` and `newtable` as a caller sees
  them (`__index`/`__newindex` dispatch to the same functions).
- `Iteration`: `ipairs` (`_iter_stable_array`) and `pairs` (`_next_stable`).
- `Collector` and `CollectorFacts`: the mark-and-sweep `collect`, both as
  written and as intended.
- `Forest`: because every `_newtable` takes a fresh id from `slot_point`,
  the references form a forest. The nested tables of one write have
  pairwise disjoint subtrees, so a write through one of them is not seen
  through another.

An operation that can raise returns `Outcome` = `Ok(store, value)` or
`Raised(store, error)`. The store is carried on the error branch because a
structural write is not atomic: a failure part-way leaves the entries
already written in place. A panic inside the private state is a
precondition, not an error result. Those panics are: a handle naming a
collected slot, a nil or handle key given to `newtable`, and a `pairs`
control that is not a key of the slot.

## Model

| member | source | states |
|---|---|---|
| Values.ToKey | stable.c:116-127 | a value passing the key check (number, boolean, string) becomes a stored key that is handed back unchanged |
| Values.KeyRoundTrip | stable.c:116-127 | converting a stored key to a caller key and back gives the same key |
| Values.CopyOut | stable.c:169-191 | copying a stored value out gives a kind the copy accepts; nil exactly for nil and a handle exactly for a reference |
| Values.CopyIn | stable.c:169-191 | the copy into the store succeeds exactly on nil, booleans, numbers, strings and light userdata; anything else fails with "unsport type"; whatever is copied reads back unchanged |
| Values.CopyRoundTrip | stable.c:169-191 | a stored value copied out and back in is the same value |
| Values.ScalarOf | stable.c:129-141 | a value passing the value check is stored as a non-reference that copies back out as the caller's value |
| Heap.Put | stable.c:269-274 | a Lua table assignment: the key reads as the assigned value, with nil deleting it, and no other key changes |
| Heap.Init | stable.c:77-101 | the fresh store satisfies the invariant and holds only ROOT, which is empty; the counter is past ROOT |
| Heap.NewSlot | stable.c:194-212 | the new id is the counter, above every live id; the counter moves on by one; the new slot is empty; parent[key] references it; only the parent changes; the invariant is kept, including that the new reference is the only one to its slot |
| Heap.PutSlot | stable.c:269-276 | writing a scalar touches only that key of that slot; ids and counter are unchanged; the invariant, unique referrers included, is kept for non-reference values |
| Writer.SetTable | stable.c:214-254 | the fresh slot is attached at parent[key] even on failure; the store is only extended and the invariant kept; the write succeeds exactly when every key passes, every value is a scalar and every nested table is met with depth at most MAX_DEEP; on failure the error is that of the first failing entry in `lua_next` order (Writer.FirstError); a table whose keys and leaves pass can only fail with "the table is to deep"; its precondition holds at every nested call, so no call runs with the counter above MAX_DEEP + 1 = 17 |
| Writer.WriteEntries | stable.c:228-251 | the `lua_next` loop writes only into the fresh slot and younger slots; it succeeds exactly when the remaining entries pass their checks; on failure it raises the first failing entry's error, and only the depth error when keys and leaves pass |
| Writer.EntryFailure | stable.c:230-266 | one entry fails exactly when it is not admissible; a bad key gives "unexpect key type" whatever the value; a bad non-table value gives "unexpect value type"; a table above the cap gives "the table is to deep", one below it the nested table's own first error |
| Writer.FirstError | stable.c:228-251 | the write of entries i.. has an error exactly when some entry from i on fails its checks |
| Writer.FirstErrorAt | stable.c:228-251 | when entries i..f-1 pass and entry f fails, the error of the write is entry f's: the loop stops at the first failing entry |
| WriterFacts.SetTableFails | stable.c:214-254 | a write of a well-formed table whose first failing entry is f raises entry f's error, and the fresh slot keeps every entry before f mirrored: nothing is undone |
| WriterFacts.WriteEntriesFails | stable.c:228-251 | from a mirrored prefix, the loop raises the first failing entry's error and leaves the earlier entries mirrored |
| WriterFacts.SetTableMirrors | stable.c:214-254 | a successful write of a well-formed table leaves the fresh slot mirroring it: scalars read back at their keys; nested tables sit in younger slots, mirrored recursively; the resulting store is valid, so each of those slots has exactly one referrer (see Forest.MirrorSubtreesDisjoint) |
| WriterFacts.WriteEntriesMirrors | stable.c:228-251 | writing the entries from i onward, given a mirrored prefix, succeeds and mirrors the whole table in a store that stays valid |
| WriterFacts.DepthCap | stable.c:234-237 | a table whose keys and leaves pass is admissible at depth d exactly when it has at most MAX_DEEP + 2 - d nesting levels |
| Proxy.Get | stable.c:282-295 | a non-handle fails with "error stable type" and a non-key with "unexpect key type"; otherwise the stored value comes back, nil when absent |
| Proxy.NewTable | stable.c:194-212 | checks in source order; on success h[k] reads back as the returned handle of a never-issued, empty slot, and every other key of h reads as before |
| Proxy.Set | stable.c:257-280 | the three type errors in source order; a scalar write reads back and changes no other key, slot or counter; a table write leaves h[k] the handle of a fresh slot and succeeds exactly when the table is admissible at depth 0; on failure it raises the first failing entry's error, and only the depth error when keys and leaves pass |
| ProxyFacts.StructuralWrite | stable.c:257-264 | `set(h, k, t)` with an admissible, well-formed table succeeds, and h[k] is a new slot that mirrors t |
| ProxyFacts.StructuralWriteFails | stable.c:214-264 | `set(h, k, t)` failing at entry f raises entry f's error, yet h[k] is already the handle of a fresh slot in which the entries before f are mirrored |
| ProxyFacts.PartialWriteStays | stable.c:228-266 | writing `{a = 1, b = <function>}` at global.x raises "unexpect value type", and global.x.a still reads 1 |
| Forest.StructuralWriteIsTree | stable.c:203-223 | after `set(h, k, t)`, any two sibling nested tables of t (distinct table-valued entries) have distinct slots whose subtrees share no slot, even when the two tables are equal as values |
| Forest.MirrorSubtreesDisjoint | stable.c:203-242 | in a valid store, two nested tables of a mirrored table sit in distinct slots younger than their parent, and no slot lies below both |
| Forest.SiblingWriteUnseen | stable.c:203-276 | writing a scalar through the handle of one nested table (h.x.a.k = v) succeeds and leaves a sibling nested table (h.x.b) mirroring its caller table as before |
| Forest.SubtreesDisjoint | stable.c:203-205 | in a valid store, the slots referenced from two different keys of one slot have subtrees that share no slot |
| Forest.SiblingsApart | stable.c:203-205 | in a valid store, two different keys of one slot reference different slots, and neither lies below the other |
| Forest.ChainsMeet | stable.c:203-205 | two reference chains that end at the same slot start at slots one of which lies below the other, because every slot has a single referrer |
| Forest.ChainAscends | stable.c:203-207 | following references in a valid store reaches strictly younger slots |
| ProxyFacts.MirrorReadsBack | stable.c:282-295 | reading a mirrored entry through `get` gives the scalar itself, or the handle of a younger slot mirroring the nested table |
| ProxyFacts.NestedReadBack | stable.c:214-295 | writing `{a = 1, b = {c = 2}}` at h.x reads back h.x.a == 1 and h.x.b.c == 2, through distinct new slots |
| ProxyFacts.NestedAdmissible | stable.c:234-242 | a table of n nested levels passes the writer's checks from depth 0 exactly when n is at most MAX_DEEP + 2 |
| ProxyFacts.DepthLimit | stable.c:234-237 | through `set`, a table nested up to 18 levels is written and one of 19 or more levels fails with "the table is to deep" |
| ProxyFacts.PersistsAcrossCallers | test.c:8-35 | a value set on `stable.global` by one caller is read back by a later caller, since both reach the same store |
| Iteration.IterArray | stable.c:297-311 | one `ipairs` step reads index control + 1 through `get`: nil ends the iteration, anything else is the pair (control + 1, value) |
| Iteration.IPairs | stable.c:297-319 | driven from control 0, `ipairs` yields (1, v1) .. (n, vn) with every vi non-nil and read back by `get`, and index n + 1 reads nil; it always terminates |
| Iteration.IndexPrefixBound | stable.c:297-311 | a container holding indices 1..n has at least n keys, which bounds the `ipairs` walk |
| Iteration.NextStable | stable.c:322-337 | from nil, `next` yields the first key of the order; from a key, the key after it; after the last key, nothing; uncopyable controls fail with "unsport type" |
| Iteration.Pairs | stable.c:322-345 | driven from nil, `pairs` yields each key of the slot exactly once, with its value, in the container's order |
| Iteration.ListsEachKeyOnce | stable.c:322-337 | following a full order lists every key of the container exactly once, with its value |
| Collector.Mark | stable.c:22-38 | the intended mark terminates on any reference graph, cycles included, and marks exactly the slots reachable from ROOT, ROOT included |
| Collector.Sweep | stable.c:40-44 | exactly the marked slots survive, with their containers unchanged; the counter is untouched |
| Collector.Collect | stable.c:35-52 | a slot survives exactly when it is reachable from ROOT; survivors are unchanged; ids are not reused; the invariant is kept, so no surviving reference dangles |
| Collector.CollectIdempotent | stable.c:35-52 | a second collection right after a first removes nothing |
| Collector.CollectAsWritten | stable.c:22-32 | as written, collect raises "collect error" and sweeps nothing exactly when ROOT references a slot other than itself; otherwise only ROOT survives; a valid store stays valid |
| Collector.AsWrittenWithoutReferences | stable.c:347-354 | when ROOT holds no reference, the collector as written agrees with the intended one |
| CollectorFacts.AsWrittenFailsAfterNewTable | stable.c:27 | after `newtable(global, "x")`, the as-written collect raises, while the intended one keeps ROOT and the new slot |
| CollectorFacts.CyclesCollected | stable.c:22-44 | a reference cycle reachable from ROOT survives collection; an unreachable one is removed even though its slots reference each other |

## Left out

- The Lua stack glue is not modelled: metatable installation, `luaopen_stable` and stack index arithmetic (stable.c:356-396). `__index`/`__newindex` are the same functions as `get`/`set`.
- Numbers are mathematical integers. Lua floats, the float/integer key distinction and `luaL_checkinteger` coercion are not modelled.
- Strings are sequences of characters. The truncation at an embedded NUL caused by `lua_pushstring` is not modelled.
- `lua_next` order is not modelled. `pairs` takes the order of a slot's keys as a parameter; it must enumerate the container and must stay fixed while the slot is not written.
- `collectgarbage 'collect'` (stable.c:46) only reclaims private-state memory, so it is not modelled.
- The lazy creation of the private state on first `require` (stable.c:104-113) is folded into `Init`.
- Slot ids are natural numbers. `slot_point` is a C address that only counts up and never wraps in practice, so its width is not modelled.
- A panic inside the private state is a precondition, not an outcome, because the source does not handle it. The panicking cases are: a collected slot, a nil or handle key to `newtable`, and a `pairs` control that is not a key of the slot.
- A table value met by `_set_table` is checked only by `lua_type`. A table inside a table is written structurally; any other non-scalar value, a handle included, fails with "unexpect value type".
- The depth cap is named MAX_DEEP = 16, but the code accepts 18 levels and refuses 19, as far as the cap is concerned. Each level also uses several slots of the caller's Lua stack (stable.c:221-242) without `lua_checkstack`, so deep writes rely on stack space the Lua API does not promise; that stack use is not modelled. The outermost table is written at depth 0, and "the table is to deep" is raised only when a nested table is met with the counter above 16 (stable.c:234-237). The model follows the code.
- Collector.Mark and Collector.Collect are stated for any store and skip a reference to a slot that is gone. On such a reference the corrected `_mark` would raise, since `pairs(nil)` fails, and `_collect` would report "collect error" (stable.c:347-354). The as-written `_mark` raises on it too, in `record(...)` (stable.c:27). Such a store never arises: `Init` is valid, every operation keeps `Valid`, and `Valid` rules out dangling references. The error on a dangling reference is therefore not modelled.
- A caller table (`LTable`) is a finite tree of entries, so a caller table that contains itself or shares a sub-table cannot be written down. The writer copies by value and stops at the depth cap, so such a table behaves like its finite unfolding: a shared sub-table is copied into two distinct slots, and a cycle is unfolded until "the table is to deep".

## Findings

| source | as written | input that shows it | evidently intended | confidence | as-written member | corrected member |
|---|---|---|---|---|---|---|
| stable.c:27 | `_mark` calls `record(stable_cache[v], record)`, and `record` is a plain table, so the call raises "attempt to call a table value"; `_collect` reports "collect error" and nothing is swept | `stable.newtable(stable.global, "x")` followed by `stable.collect()` | `_mark(stable_cache[v], record)`, a recursive mark of every slot reachable from ROOT | high, not executed | Collector.CollectAsWritten (exhibited by CollectorFacts.AsWrittenFailsAfterNewTable) | Collector.Collect (with Collector.Mark) |
