/*
 * Iteration over a slot from the caller's side: `ipairs` walks the array
 * part until the first nil (stable.c: `_iter_stable_array`, `_ipairs`),
 * `pairs` follows the private state's `lua_next` order (stable.c:
 * `_next_stable`, `_pairs`). Both are stateless: the caller passes back
 * the control value the previous step returned.
 */
module Iteration {
  import opened Values
  import opened Heap
  import opened Proxy

  /** One step of `ipairs` from control `control`: read index control + 1
      through `get`; nil ends the iteration, anything else is the next pair.
      A non-handle fails in `get` with "error stable type". */
  function IterArray(s: Store, h: LuaValue, control: int): (r: Result<Option<(int, LuaValue)>, Error>)
    requires h.LHandle? ==> h.p in s.cache
    ensures !h.LHandle? ==> r == Failure(ErrorStableType)
    ensures h.LHandle? ==> r.Success?
    ensures h.LHandle? ==> (r.value.None? <==> Get(s, h, LNum(control + 1)) == Success(LNil))
    ensures h.LHandle? && r.value.Some? ==>
              && r.value.value.0 == control + 1
              && Get(s, h, LNum(control + 1)) == Success(r.value.value.1)
  {
    var idx := control + 1;
    match Get(s, h, LNum(idx))
    case Failure(e) => Failure(e)
    case Success(v) => if v.LNil? then Success(None) else Success(Some((idx, v)))
  }

  /** The keys 1..n as stored. */
  function IndexKeys(n: nat): (ks: set<Key>)
    ensures forall k :: k in ks <==> k.KNum? && 1 <= k.n <= n
  {
    if n == 0 then {} else IndexKeys(n - 1) + {KNum(n)}
  }

  lemma {:induction false} IndexKeysCount(n: nat)
    ensures |IndexKeys(n)| == n
  {
    if n > 0 {
      IndexKeysCount(n - 1);
      assert KNum(n) !in IndexKeys(n - 1);
    }
  }

  /** A container holding indices 1..n has at least n keys; this bounds
      how long `ipairs` can run. */
  lemma IndexPrefixBound(c: Container, n: nat)
    requires forall i :: 1 <= i <= n ==> KNum(i) in c
    ensures n <= |c|
  {
    var ks := IndexKeys(n);
    IndexKeysCount(n);
    assert ks <= c.Keys;
    assert c.Keys == ks + (c.Keys - ks);
  }

  /** `ipairs` driven to the end, starting from control 0: the pairs
      (1, v1) .. (n, vn) where index n + 1 is the first that reads as nil.
      It always terminates, since the indices read so far are keys of the
      container. */
  method IPairs(s: Store, h: LuaValue) returns (r: Result<seq<(int, LuaValue)>, Error>)
    requires h.LHandle? ==> h.p in s.cache
    ensures !h.LHandle? ==> r == Failure(ErrorStableType)
    ensures h.LHandle? ==> r.Success?
    ensures r.Success? ==>
              && (forall i :: 0 <= i < |r.value| ==>
                    && r.value[i].0 == i + 1
                    && r.value[i].1 != LNil
                    && Get(s, h, LNum(i + 1)) == Success(r.value[i].1))
              && Get(s, h, LNum(|r.value| + 1)) == Success(LNil)
  {
    var step := IterArray(s, h, 0);
    if step.Failure? {
      return Failure(step.error);
    }
    var control := 0;
    var out: seq<(int, LuaValue)> := [];
    while step.value.Some?
      invariant h.LHandle? && step.Success?
      invariant control == |out|
      invariant step == IterArray(s, h, control)
      invariant forall i :: 1 <= i <= control ==> KNum(i) in s.cache[h.p]
      invariant forall i :: 0 <= i < |out| ==>
                  && out[i].0 == i + 1
                  && out[i].1 != LNil
                  && Get(s, h, LNum(i + 1)) == Success(out[i].1)
      decreases |s.cache[h.p]| - control
    {
      var (idx, v) := step.value.value;
      assert KNum(idx) in s.cache[h.p];
      IndexPrefixBound(s.cache[h.p], idx);
      out := out + [(idx, v)];
      control := idx;
      step := IterArray(s, h, control);
    }
    return Success(out);
  }

  /** `order` is the `lua_next` order of container `c`: each key of `c`
      exactly once. */
  ghost predicate Enumerates(order: seq<Key>, c: Container) {
    && (forall i, j :: 0 <= i < j < |order| ==> order[i] != order[j])
    && (forall k :: k in c <==> k in order)
  }

  /** The position of key `k` in `order`. */
  function IndexOf(order: seq<Key>, k: Key): (i: nat)
    requires k in order
    ensures i < |order| && order[i] == k
  {
    if order[0] == k then 0 else 1 + IndexOf(order[1..], k)
  }

  /** The pair `pairs` yields for position `i` of the order. */
  function PairAt(c: Container, order: seq<Key>, i: nat): (LuaValue, LuaValue)
    requires i < |order|
  {
    (KeyOut(order[i]), CopyOut(Lookup(c, order[i])))
  }

  /** `_next_stable`: the stateless `next` of `pairs`. From nil it yields
      the first key of the order, from a key the one after it, and after the
      last key nothing. `order` stands for `lua_next`'s order for the slot,
      fixed while the slot is not written. A control `_copy_value` cannot
      carry fails with "unsport type"; a control that is not a key of the
      container aborts inside the private state and is excluded. */
  function NextStable(s: Store, h: LuaValue, control: LuaValue, order: seq<Key>)
    : (r: Result<Option<(LuaValue, LuaValue)>, Error>)
    requires h.LHandle? && h.p in s.cache ==> Enumerates(order, s.cache[h.p])
    requires h.LHandle? && Copyable(control) ==>
               && h.p in s.cache
               && (control.LNil? || (IsKeyType(control) && ToKey(control) in s.cache[h.p]))
    ensures !h.LHandle? ==> r == Failure(ErrorStableType)
    ensures h.LHandle? && !Copyable(control) ==> r == Failure(UnsupportedType)
    ensures h.LHandle? && control.LNil? ==>
              r == Success(if |order| == 0 then None else Some(PairAt(s.cache[h.p], order, 0)))
    ensures h.LHandle? && Copyable(control) ==>
              forall i :: 0 <= i < |order| && control == KeyOut(order[i]) ==>
                r == Success(if i + 1 < |order| then Some(PairAt(s.cache[h.p], order, i + 1)) else None)
  {
    if !h.LHandle? then Failure(ErrorStableType)
    else if !Copyable(control) then Failure(UnsupportedType)
    else
      var c := s.cache[h.p];
      var pos := if control.LNil? then 0 else IndexOf(order, ToKey(control)) + 1;
      if pos < |order| then Success(Some(PairAt(c, order, pos))) else Success(None)
  }

  /** The step of `pairs` from the key at position `i` of the order yields
      the pair at position i + 1, or ends after the last key. */
  lemma NextAfter(s: Store, h: nat, order: seq<Key>, i: nat)
    requires h in s.cache && Enumerates(order, s.cache[h]) && i < |order|
    ensures order[i] in s.cache[h]
    ensures NextStable(s, LHandle(h), KeyOut(order[i]), order)
            == Success(if i + 1 < |order| then Some(PairAt(s.cache[h], order, i + 1)) else None)
  {
    KeyRoundTrip(order[i]);
  }

  /** `pairs` driven to the end, starting from nil: every key of the slot
      exactly once, in the container's order, each with its value. */
  method Pairs(s: Store, h: LuaValue, order: seq<Key>) returns (r: Result<seq<(LuaValue, LuaValue)>, Error>)
    requires h.LHandle? ==> h.p in s.cache && Enumerates(order, s.cache[h.p])
    ensures !h.LHandle? ==> r == Failure(ErrorStableType)
    ensures h.LHandle? ==> r.Success? && |r.value| == |order|
    ensures r.Success? ==>
              forall i :: 0 <= i < |order| ==> r.value[i] == PairAt(s.cache[h.p], order, i)
    ensures r.Success? ==>
              && (forall i, j :: 0 <= i < j < |r.value| ==> r.value[i].0 != r.value[j].0)
              && (forall k :: k in s.cache[h.p] ==>
                    exists i :: 0 <= i < |r.value| && r.value[i] == (KeyOut(k), CopyOut(s.cache[h.p][k])))
  {
    var step := NextStable(s, h, LNil, order);
    if step.Failure? {
      return Failure(step.error);
    }
    var out: seq<(LuaValue, LuaValue)> := [];
    while step.value.Some?
      invariant h.LHandle? && step.Success?
      invariant |out| <= |order|
      invariant step.value.Some? <==> |out| < |order|
      invariant step.value.Some? ==> step.value.value == PairAt(s.cache[h.p], order, |out|)
      invariant forall i :: 0 <= i < |out| ==> out[i] == PairAt(s.cache[h.p], order, i)
      decreases |order| - |out|
    {
      var (k, v) := step.value.value;
      NextAfter(s, h.p, order, |out|);
      out := out + [(k, v)];
      step := NextStable(s, h, k, order);
    }
    ListsEachKeyOnce(s.cache[h.p], order, out);
    return Success(out);
  }

  /** The pairs of a whole order list every key of the container exactly
      once, each with its value. */
  lemma ListsEachKeyOnce(c: Container, order: seq<Key>, out: seq<(LuaValue, LuaValue)>)
    requires Enumerates(order, c) && |out| == |order|
    requires forall i :: 0 <= i < |order| ==> out[i] == PairAt(c, order, i)
    ensures forall i, j :: 0 <= i < j < |out| ==> out[i].0 != out[j].0
    ensures forall k :: k in c ==> exists i :: 0 <= i < |out| && out[i] == (KeyOut(k), CopyOut(c[k]))
  {
    forall i, j | 0 <= i < j < |out|
      ensures out[i].0 != out[j].0
    {
      KeyRoundTrip(order[i]);
      KeyRoundTrip(order[j]);
    }
    forall k | k in c
      ensures exists i :: 0 <= i < |out| && out[i] == (KeyOut(k), CopyOut(c[k]))
    {
      var i := IndexOf(order, k);
      assert out[i] == PairAt(c, order, i);
    }
  }
}
