/*
 * The references of a valid store form a forest. Every `_newtable` call
 * (stable.c:194-212) takes a fresh slot id from `slot_point`, so no slot is
 * ever referenced from two places. Consequently the nested tables of one
 * structural write occupy pairwise disjoint subtrees, and a write through
 * one of them cannot be observed through another.
 */
module Forest {
  import opened Values
  import opened Heap
  import opened Writer
  import opened WriterFacts
  import opened Proxy
  import opened Collector
  import opened ProxyFacts

  /** A chain of references starting at any slot. */
  ghost predicate Chain(s: Store, p: seq<nat>) {
    && |p| > 0
    && forall i :: 0 <= i < |p| - 1 ==> Edge(s, p[i], p[i + 1])
  }

  /** Slot `y` lies in the subtree rooted at slot `c`, `c` itself included. */
  ghost predicate Below(s: Store, c: nat, y: nat) {
    exists p :: Chain(s, p) && p[0] == c && p[|p| - 1] == y
  }

  lemma ChainPrefix(s: Store, p: seq<nat>, n: nat)
    requires Chain(s, p) && 0 < n <= |p|
    ensures Chain(s, p[..n])
  {
    forall i | 0 <= i < n - 1
      ensures Edge(s, p[..n][i], p[..n][i + 1])
    {
      assert p[..n][i] == p[i] && p[..n][i + 1] == p[i + 1];
    }
  }

  /** A reference from `c` to `d` puts the subtree of `d` inside that of `c`. */
  lemma BelowStep(s: Store, c: nat, d: nat, y: nat)
    requires Edge(s, c, d) && Below(s, d, y)
    ensures Below(s, c, y)
  {
    var p :| Chain(s, p) && p[0] == d && p[|p| - 1] == y;
    var q := [c] + p;
    forall i | 0 <= i < |q| - 1
      ensures Edge(s, q[i], q[i + 1])
    {
      if i > 0 {
        assert q[i] == p[i - 1] && q[i + 1] == p[i];
      }
    }
    assert q[|q| - 1] == y;
  }

  /** Every slot of the subtree of a live slot is live. */
  lemma BelowLive(s: Store, c: nat, y: nat)
    requires c in s.cache && Below(s, c, y)
    ensures y in s.cache
  {
    var p :| Chain(s, p) && p[0] == c && p[|p| - 1] == y;
    if |p| > 1 {
      assert Edge(s, p[|p| - 2], p[|p| - 1]);
    }
  }

  /** Following references in a valid store always reaches younger slots. */
  lemma {:induction false} ChainAscends(s: Store, p: seq<nat>)
    requires Valid(s) && Chain(s, p)
    ensures p[0] <= p[|p| - 1]
    ensures |p| > 1 ==> p[0] < p[|p| - 1]
    decreases |p|
  {
    if |p| > 1 {
      var a := p[|p| - 2];
      assert Edge(s, a, p[|p| - 1]);
      var k :| k in s.cache[a] && s.cache[a][k].Ref? && s.cache[a][k].slot == p[|p| - 1];
      assert WellStored(s, a, s.cache[a][k]);
      ChainPrefix(s, p, |p| - 1);
      ChainAscends(s, p[..|p| - 1]);
    }
  }

  /** In a valid store a slot has at most one referrer. */
  lemma OneReferrer(s: Store, a: nat, b: nat, y: nat)
    requires Valid(s) && Edge(s, a, y) && Edge(s, b, y)
    ensures a == b
  {
    var ka :| ka in s.cache[a] && s.cache[a][ka].Ref? && s.cache[a][ka].slot == y;
    var kb :| kb in s.cache[b] && s.cache[b][kb].Ref? && s.cache[b][kb].slot == y;
    assert RefAt(s, a, ka) == RefAt(s, b, kb);
  }

  /** Two chains that end at the same slot run through the same referrers,
      so one of their starts lies in the subtree of the other. */
  lemma {:induction false} ChainsMeet(s: Store, p: seq<nat>, q: seq<nat>)
    requires Valid(s) && Chain(s, p) && Chain(s, q) && p[|p| - 1] == q[|q| - 1]
    ensures Below(s, p[0], q[0]) || Below(s, q[0], p[0])
    decreases |p| + |q|
  {
    if |p| == 1 {
      assert Chain(s, q) && q[0] == q[0] && q[|q| - 1] == p[0];
    } else if |q| == 1 {
      assert Chain(s, p) && p[0] == p[0] && p[|p| - 1] == q[0];
    } else {
      assert Edge(s, p[|p| - 2], p[|p| - 1]) && Edge(s, q[|q| - 2], q[|q| - 1]);
      OneReferrer(s, p[|p| - 2], q[|q| - 2], p[|p| - 1]);
      ChainPrefix(s, p, |p| - 1);
      ChainPrefix(s, q, |q| - 1);
      ChainsMeet(s, p[..|p| - 1], q[..|q| - 1]);
    }
  }

  /** Two different keys of one slot never reference the same slot, and
      neither referenced slot lies in the subtree of the other. */
  lemma SiblingsApart(s: Store, x: nat, k1: Key, k2: Key)
    requires Valid(s) && x in s.cache && k1 in s.cache[x] && k2 in s.cache[x] && k1 != k2
    requires s.cache[x][k1].Ref? && s.cache[x][k2].Ref?
    ensures s.cache[x][k1].slot != s.cache[x][k2].slot
    ensures !Below(s, s.cache[x][k1].slot, s.cache[x][k2].slot)
  {
    var c1, c2 := s.cache[x][k1].slot, s.cache[x][k2].slot;
    assert WellStored(s, x, s.cache[x][k1]) && WellStored(s, x, s.cache[x][k2]);
    assert RefAt(s, x, k1) != RefAt(s, x, k2);
    if Below(s, c1, c2) {
      var p :| Chain(s, p) && p[0] == c1 && p[|p| - 1] == c2;
      assert |p| > 1;
      assert Edge(s, p[|p| - 2], c2);
      assert Edge(s, x, c2);
      OneReferrer(s, p[|p| - 2], x, c2);
      ChainPrefix(s, p, |p| - 1);
      ChainAscends(s, p[..|p| - 1]);
      assert false;
    }
  }

  /** The subtrees referenced from two different keys of one slot share no
      slot. */
  lemma SubtreesDisjoint(s: Store, x: nat, k1: Key, k2: Key)
    requires Valid(s) && x in s.cache && k1 in s.cache[x] && k2 in s.cache[x] && k1 != k2
    requires s.cache[x][k1].Ref? && s.cache[x][k2].Ref?
    ensures forall y :: !(Below(s, s.cache[x][k1].slot, y) && Below(s, s.cache[x][k2].slot, y))
  {
    var c1, c2 := s.cache[x][k1].slot, s.cache[x][k2].slot;
    forall y
      ensures !(Below(s, c1, y) && Below(s, c2, y))
    {
      if Below(s, c1, y) && Below(s, c2, y) {
        var p :| Chain(s, p) && p[0] == c1 && p[|p| - 1] == y;
        var q :| Chain(s, q) && q[0] == c2 && q[|q| - 1] == y;
        ChainsMeet(s, p, q);
        SiblingsApart(s, x, k1, k2);
        SiblingsApart(s, x, k2, k1);
        assert false;
      }
    }
  }

  /** In a valid store, two nested tables of a mirrored table sit in
      distinct slots, younger than their parent, whose subtrees share no
      slot: the mirror is a tree, not a graph with shared children. */
  lemma MirrorSubtreesDisjoint(s: Store, x: nat, t: LuaValue, i: nat, j: nat)
    requires Valid(s) && WellFormed(t) && Mirrors(s, x, t)
    requires i < |t.entries| && j < |t.entries| && i != j
    requires t.entries[i].val.LTable? && t.entries[j].val.LTable?
    ensures x < Child(s, x, t.entries[i].key) && x < Child(s, x, t.entries[j].key)
    ensures Child(s, x, t.entries[i].key) != Child(s, x, t.entries[j].key)
    ensures forall y :: !(Below(s, Child(s, x, t.entries[i].key), y) && Below(s, Child(s, x, t.entries[j].key), y))
  {
    var ei, ej := t.entries[i], t.entries[j];
    assert StoredAs(s, x, ei, Mirrors(s, Child(s, x, ei.key), ei.val));
    assert StoredAs(s, x, ej, Mirrors(s, Child(s, x, ej.key), ej.val));
    assert ei.key != ej.key by {
      if i < j {
        assert t.entries[i].key != t.entries[j].key;
      } else {
        assert t.entries[j].key != t.entries[i].key;
      }
    }
    assert ToKey(ei.key) != ToKey(ej.key) by {
      assert KeyOut(ToKey(ei.key)) == ei.key && KeyOut(ToKey(ej.key)) == ej.key;
    }
    SiblingsApart(s, x, ToKey(ei.key), ToKey(ej.key));
    SubtreesDisjoint(s, x, ToKey(ei.key), ToKey(ej.key));
  }

  /** A mirror depends only on the slots of its own subtree. */
  lemma {:induction false} MirrorsKeptOutside(s: Store, s': Store, c: nat, u: LuaValue)
    requires Mirrors(s, c, u)
    requires forall y :: Below(s, c, y) ==> y in s.cache && y in s'.cache && s'.cache[y] == s.cache[y]
    ensures Mirrors(s', c, u)
    decreases u
  {
    assert Chain(s, [c]) && [c][0] == c && [c][|[c]| - 1] == c;
    assert Below(s, c, c);
    forall j | 0 <= j < |u.entries|
      ensures StoredAs(s', c, u.entries[j], Mirrors(s', Child(s', c, u.entries[j].key), u.entries[j].val))
    {
      var e := u.entries[j];
      assert StoredAs(s, c, e, Mirrors(s, Child(s, c, e.key), e.val));
      assert Child(s', c, e.key) == Child(s, c, e.key);
      if e.val.LTable? {
        var d := Child(s, c, e.key);
        forall y | Below(s, d, y)
          ensures y in s.cache && y in s'.cache && s'.cache[y] == s.cache[y]
        {
          if d in s.cache {
            assert Edge(s, c, d);
            BelowStep(s, c, d, y);
          }
        }
        MirrorsKeptOutside(s, s', d, e.val);
      }
    }
  }

  /** Writing a scalar through the handle of one nested table (`h.x.a.k =
      v`) leaves every sibling nested table (`h.x.b`) mirroring its caller
      table as before. */
  lemma SiblingWriteUnseen(s: Store, x: nat, t: LuaValue, i: nat, j: nat, k: LuaValue, v: LuaValue)
    requires Valid(s) && WellFormed(t) && Mirrors(s, x, t)
    requires i < |t.entries| && j < |t.entries| && i != j
    requires t.entries[i].val.LTable? && t.entries[j].val.LTable?
    requires IsKeyType(k) && IsScalar(v)
    ensures Child(s, x, t.entries[i].key) in s.cache
    ensures var r := Set(s, LHandle(Child(s, x, t.entries[i].key)), k, v);
            && r.Ok?
            && Mirrors(r.store, Child(s, x, t.entries[j].key), t.entries[j].val)
  {
    var ci, cj := Child(s, x, t.entries[i].key), Child(s, x, t.entries[j].key);
    var ei := t.entries[i];
    assert StoredAs(s, x, ei, Mirrors(s, ci, ei.val));
    assert WellStored(s, x, s.cache[x][ToKey(ei.key)]);
    MirrorSubtreesDisjoint(s, x, t, i, j);
    assert StoredAs(s, x, t.entries[j], Mirrors(s, cj, t.entries[j].val));
    assert Chain(s, [ci]) && [ci][0] == ci && [ci][|[ci]| - 1] == ci;
    WriteOutsideSubtree(s, Set(s, LHandle(ci), k, v).store, ci, cj, t.entries[j].val);
  }

  /** A change confined to slot `z`, outside the subtree of `c`, keeps the
      mirror at `c`. */
  lemma WriteOutsideSubtree(s: Store, s': Store, z: nat, c: nat, u: LuaValue)
    requires Mirrors(s, c, u) && Extends(s, s', z) && !Below(s, c, z)
    ensures Mirrors(s', c, u)
  {
    forall y | Below(s, c, y)
      ensures y in s.cache && y in s'.cache && s'.cache[y] == s.cache[y]
    {
      BelowLive(s, c, y);
    }
    MirrorsKeptOutside(s, s', c, u);
  }

  /** `set(h, k, t)` with a well-formed, admissible table builds a tree:
      any two sibling nested tables of `t` (distinct table-valued entries)
      get distinct slots whose subtrees share no slot, even when the two
      tables are equal as values. Deeper levels follow from
      `MirrorSubtreesDisjoint` at each nested slot. */
  lemma StructuralWriteIsTree(s: Store, h: nat, k: LuaValue, t: LuaValue)
    requires Valid(s) && h in s.cache && IsKeyType(k)
    requires WellFormed(t) && Admissible(t, 0)
    ensures var st := Set(s, LHandle(h), k, t).store;
            forall i, j :: 0 <= i < |t.entries| && 0 <= j < |t.entries| && i != j &&
                           t.entries[i].val.LTable? && t.entries[j].val.LTable? ==>
              && Child(st, s.next, t.entries[i].key) != Child(st, s.next, t.entries[j].key)
              && forall y :: !(Below(st, Child(st, s.next, t.entries[i].key), y) &&
                               Below(st, Child(st, s.next, t.entries[j].key), y))
  {
    var st := Set(s, LHandle(h), k, t).store;
    StructuralWrite(s, h, k, t);
    forall i, j | 0 <= i < |t.entries| && 0 <= j < |t.entries| && i != j &&
                  t.entries[i].val.LTable? && t.entries[j].val.LTable?
      ensures && Child(st, s.next, t.entries[i].key) != Child(st, s.next, t.entries[j].key)
              && forall y :: !(Below(st, Child(st, s.next, t.entries[i].key), y) &&
                               Below(st, Child(st, s.next, t.entries[j].key), y))
    {
      MirrorSubtreesDisjoint(st, s.next, t, i, j);
    }
  }
}
