/*
 * Values that cross the boundary between a caller's Lua state and the
 * store's private Lua state, and the checks and copies applied to them
 * on the way (stable.c: _check_key, _check_value, _check_table,
 * _copy_value).
 */
module Values {

  datatype Option<+T> = None | Some(value: T)

  datatype Result<+T, +E> = Success(value: T) | Failure(error: E)

  /** A key of a stored container: `_check_key` admits exactly Lua numbers,
      booleans and strings. Numbers are modelled as integers. */
  datatype Key = KBool(b: bool) | KNum(n: int) | KStr(s: string)

  /** A value inside the private state. `Ref` is a light userdata naming a
      slot; `Nil` is what a lookup of an absent key yields and is never
      stored (assigning nil deletes the key). */
  datatype Value = Nil | Bool(b: bool) | Num(n: int) | Str(s: string) | Ref(slot: nat)

  /** A value on the caller's side of the boundary. `LHandle` is a light
      userdata (the proxy of a slot), `LTable` a caller table given by its
      entries in the caller's `lua_next` order, and `LOther` any other Lua
      type (function, full userdata, thread). */
  datatype LuaValue =
    | LNil
    | LBool(b: bool)
    | LNum(n: int)
    | LStr(s: string)
    | LHandle(p: nat)
    | LTable(entries: seq<Entry>)
    | LOther

  datatype Entry = Entry(key: LuaValue, val: LuaValue)

  /** The errors the store raises in the caller's state, one per message. */
  datatype Error =
    | ErrorStableType      // "error stable type"
    | UnexpectKeyType      // "unexpect key type"
    | UnexpectValueType    // "unexpect value type"
    | UnsupportedType      // "unsport type"
    | TooDeep              // "the table is to deep"
    | CollectError         // "collect error"

  /** `_check_key`: numbers, booleans and strings only. */
  predicate IsKeyType(v: LuaValue) {
    v.LBool? || v.LNum? || v.LStr?
  }

  /** `_check_value`: the scalars a plain write may store, nil included. */
  predicate IsScalar(v: LuaValue) {
    v.LNil? || IsKeyType(v)
  }

  /** The kinds `_copy_value` can move across the boundary. */
  predicate Copyable(v: LuaValue) {
    !v.LTable? && !v.LOther?
  }

  /** A stored key handed back to the caller. */
  function KeyOut(k: Key): (v: LuaValue)
    ensures IsKeyType(v)
  {
    match k
    case KBool(b) => LBool(b)
    case KNum(n) => LNum(n)
    case KStr(s) => LStr(s)
  }

  /** A checked caller key as a stored key; reading it back gives the
      caller's key again. */
  function ToKey(v: LuaValue): (k: Key)
    requires IsKeyType(v)
    ensures KeyOut(k) == v
  {
    match v
    case LBool(b) => KBool(b)
    case LNum(n) => KNum(n)
    case LStr(s) => KStr(s)
  }

  lemma KeyRoundTrip(k: Key)
    ensures ToKey(KeyOut(k)) == k
  {
  }

  /** `_copy_value` from the private state to the caller. */
  function CopyOut(v: Value): (r: LuaValue)
    ensures Copyable(r)
    ensures r.LNil? <==> v.Nil?
    ensures r.LHandle? <==> v.Ref?
  {
    match v
    case Nil => LNil
    case Bool(b) => LBool(b)
    case Num(n) => LNum(n)
    case Str(s) => LStr(s)
    case Ref(p) => LHandle(p)
  }

  /** `_copy_value` from the caller to the private state: it fails with
      "unsport type" exactly on the kinds it cannot carry, and what it
      carries comes back unchanged. */
  function CopyIn(v: LuaValue): (r: Result<Value, Error>)
    ensures r.Success? <==> Copyable(v)
    ensures r.Failure? ==> r.error == UnsupportedType
    ensures r.Success? ==> CopyOut(r.value) == v
  {
    match v
    case LNil => Success(Nil)
    case LBool(b) => Success(Bool(b))
    case LNum(n) => Success(Num(n))
    case LStr(s) => Success(Str(s))
    case LHandle(p) => Success(Ref(p))
    case _ => Failure(UnsupportedType)
  }

  lemma CopyRoundTrip(v: Value)
    ensures CopyIn(CopyOut(v)) == Success(v)
  {
  }

  /** A scalar that passed `_check_value`, as it is stored. It is never a
      reference, and reading it back yields the caller's scalar. */
  function ScalarOf(v: LuaValue): (r: Value)
    requires IsScalar(v)
    ensures !r.Ref?
    ensures CopyOut(r) == v
  {
    CopyIn(v).value
  }
}
