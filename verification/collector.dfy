/*
 * The mark-and-sweep collector `collect` (stable.c:14-52, run by `_collect`
 * at stable.c:347-354). ROOT is marked first; marking follows stored
 * references, guarded so that each slot is expanded at most once; the sweep
 * drops every slot that was not marked.
 *
 * As written, `_mark` does not recurse: stable.c:27 calls `record(...)`,
 * and `record` is a table, so the call raises and `_collect` reports
 * "collect error" as soon as ROOT holds a reference to another slot. That
 * behaviour is `CollectAsWritten`; `Collect` is the intended marking, a
 * guarded worklist.
 */
module Collector {
  import opened Values
  import opened Heap

  /** The existing slots that slot `x` holds references to. */
  function Children(s: Store, x: nat): (r: set<nat>)
    requires x in s.cache
  {
    set k | k in s.cache[x] && s.cache[x][k].Ref? && s.cache[x][k].slot in s.cache :: s.cache[x][k].slot
  }

  ghost predicate Edge(s: Store, x: nat, y: nat) {
    x in s.cache && y in Children(s, x)
  }

  /** A chain of references starting at ROOT. */
  ghost predicate IsPath(s: Store, p: seq<nat>) {
    && |p| > 0
    && p[0] == ROOT
    && forall i :: 0 <= i < |p| - 1 ==> Edge(s, p[i], p[i + 1])
  }

  /** Slot `y` can be reached from ROOT by following references. */
  ghost predicate Reachable(s: Store, y: nat) {
    exists p :: IsPath(s, p) && p[|p| - 1] == y
  }

  lemma ReachableStep(s: Store, p: seq<nat>, y: nat)
    requires IsPath(s, p) && Edge(s, p[|p| - 1], y)
    ensures IsPath(s, p + [y]) && Reachable(s, y)
  {
    var q := p + [y];
    assert q[|q| - 1] == y;
    assert forall i :: 0 <= i < |q| - 1 ==> Edge(s, q[i], q[i + 1]) by {
      forall i | 0 <= i < |q| - 1
        ensures Edge(s, q[i], q[i + 1])
      {
        if i < |p| - 1 {
          assert q[i] == p[i] && q[i + 1] == p[i + 1];
        }
      }
    }
  }

  /** A set that holds ROOT and is closed under references holds every
      reachable slot. */
  lemma {:induction false} ClosedHoldsReachable(s: Store, m: set<nat>, p: seq<nat>)
    requires ROOT in m
    requires forall x, y :: x in m && Edge(s, x, y) ==> y in m
    requires IsPath(s, p)
    ensures p[|p| - 1] in m
    decreases |p|
  {
    if |p| > 1 {
      var q := p[..|p| - 1];
      assert IsPath(s, q) by {
        forall i | 0 <= i < |q| - 1
          ensures Edge(s, q[i], q[i + 1])
        {
          assert q[i] == p[i] && q[i + 1] == p[i + 1];
        }
      }
      ClosedHoldsReachable(s, m, q);
      assert Edge(s, p[|p| - 2], p[|p| - 1]);
    }
  }

  lemma ProperSubsetSmaller<T>(a: set<T>, b: set<T>)
    requires a < b
    ensures |a| < |b|
  {
    assert b == a + (b - a);
    var y :| y in b - a;
  }

  /** Every marked slot has a recorded path from ROOT. */
  ghost predicate PathsFor(s: Store, marked: set<nat>, paths: map<nat, seq<nat>>) {
    forall y :: y in marked ==> y in paths && IsPath(s, paths[y]) && paths[y][|paths[y]| - 1] == y
  }

  /** Every marked slot that has left the worklist has its references
      marked. */
  ghost predicate ClosedOutside(s: Store, marked: set<nat>, work: set<nat>) {
    forall x, y :: x in marked && x !in work && Edge(s, x, y) ==> y in marked
  }

  /** The invariant of the mark loop over the slot ids `universe`: ROOT is
      marked, the worklist holds marked slots only, every marked slot has
      a path, and a marked slot off the worklist has its references
      marked. */
  ghost predicate MarkInv(s: Store, universe: set<nat>, marked: set<nat>, work: set<nat>,
                          paths: map<nat, seq<nat>>) {
    && universe == s.cache.Keys + {ROOT}
    && ROOT in marked && work <= marked && marked <= universe
    && PathsFor(s, marked, paths)
    && ClosedOutside(s, marked, work)
  }

  /** A round that marks and queues the unmarked references of `x` keeps
      the invariant. */
  lemma ExpandKeeps(s: Store, universe: set<nat>, marked: set<nat>, work: set<nat>,
                    paths: map<nat, seq<nat>>, x: nat)
    requires MarkInv(s, universe, marked, work, paths) && x in work && x in s.cache
    ensures var found := Children(s, x) - marked;
            MarkInv(s, universe, marked + found, work - {x} + found,
                    paths + map y | y in found :: paths[x] + [y])
  {
    var found := Children(s, x) - marked;
    var paths' := paths + map y | y in found :: paths[x] + [y];
    forall y | y in marked + found
      ensures y in paths' && IsPath(s, paths'[y]) && paths'[y][|paths'[y]| - 1] == y
    {
      if y in found {
        ReachableStep(s, paths[x], y);
        assert paths'[y] == paths[x] + [y];
      } else {
        assert paths'[y] == paths[y];
      }
    }
  }

  /** A round that finds nothing new to mark only shrinks the worklist. */
  lemma SkipKeeps(s: Store, universe: set<nat>, marked: set<nat>, work: set<nat>,
                  paths: map<nat, seq<nat>>, x: nat)
    requires MarkInv(s, universe, marked, work, paths) && x in work
    requires x in s.cache ==> Children(s, x) <= marked
    ensures MarkInv(s, universe, marked, work - {x}, paths)
  {
  }

  /** The intended mark phase. ROOT is marked first; a slot taken from the
      worklist has each referenced slot not yet marked marked and queued, so
      no slot is expanded twice. It terminates on any reference graph,
      cycles included, because every round either marks a slot or shrinks
      the worklist, and it marks exactly the slots reachable from ROOT. */
  method Mark(s: Store) returns (marked: set<nat>)
    ensures ROOT in marked
    ensures forall y :: y in marked <==> Reachable(s, y)
  {
    marked := {ROOT};
    var work: set<nat> := {ROOT};
    ghost var paths: map<nat, seq<nat>> := map[ROOT := [ROOT]];
    ghost var universe := s.cache.Keys + {ROOT};
    assert IsPath(s, [ROOT]);
    while work != {}
      invariant MarkInv(s, universe, marked, work, paths)
      decreases |universe - marked|, |work|
    {
      var x :| x in work;
      var found := if x in s.cache then Children(s, x) - marked else {};
      if found != {} {
        ExpandKeeps(s, universe, marked, work, paths, x);
        ProperSubsetSmaller(universe - (marked + found), universe - marked);
        paths := paths + map y | y in found :: paths[x] + [y];
        marked := marked + found;
        work := work - {x} + found;
      } else {
        SkipKeeps(s, universe, marked, work, paths, x);
        ProperSubsetSmaller(work - {x}, work);
        work := work - {x};
      }
    }
    MarkedAreReachable(s, marked, paths);
  }

  /** When the worklist is empty, the marked set holds ROOT, is closed
      under references and every member has a path: it is exactly the
      reachable slots. */
  lemma MarkedAreReachable(s: Store, marked: set<nat>, paths: map<nat, seq<nat>>)
    requires ROOT in marked && PathsFor(s, marked, paths) && ClosedOutside(s, marked, {})
    ensures forall y :: y in marked <==> Reachable(s, y)
  {
    forall y | Reachable(s, y)
      ensures y in marked
    {
      var p :| IsPath(s, p) && p[|p| - 1] == y;
      ClosedHoldsReachable(s, marked, p);
    }
    forall y | y in marked
      ensures Reachable(s, y)
    {
      assert IsPath(s, paths[y]) && paths[y][|paths[y]| - 1] == y;
    }
  }

  /** The sweep: every slot that is not marked is removed, the rest keep
      their containers, and the counter is untouched (ids are not reused). */
  function Sweep(s: Store, marked: set<nat>): (r: Store)
    ensures forall x :: x in r.cache <==> x in s.cache && x in marked
    ensures forall x :: x in r.cache ==> r.cache[x] == s.cache[x]
    ensures r.next == s.next
  {
    Store(map x | x in s.cache && x in marked :: s.cache[x], s.next)
  }

  /** The store a collection leaves: the reachable slots. */
  ghost function Collected(s: Store): (r: Store) {
    Sweep(s, set y | y in s.cache && Reachable(s, y))
  }

  /** `collect`, with the marking intended at stable.c:22-32. A slot
      survives exactly when it is reachable from ROOT; ROOT always survives;
      the store invariant is kept, so no surviving reference dangles. */
  method Collect(s: Store) returns (r: Store)
    ensures r == Collected(s)
    ensures forall x :: x in r.cache <==> x in s.cache && Reachable(s, x)
    ensures forall x :: x in r.cache ==> r.cache[x] == s.cache[x]
    ensures r.next == s.next
    ensures ROOT in s.cache ==> ROOT in r.cache
    ensures Valid(s) ==> Valid(r)
  {
    var marked := Mark(s);
    r := Sweep(s, marked);
    assert marked * s.cache.Keys == set y | y in s.cache && Reachable(s, y);
    if Valid(s) {
      forall x, k | x in r.cache && k in r.cache[x]
        ensures WellStored(r, x, r.cache[x][k])
      {
        var v := s.cache[x][k];
        assert WellStored(s, x, v);
        if v.Ref? {
          assert v.slot in Children(s, x);
          var p :| IsPath(s, p) && p[|p| - 1] == x;
          ReachableStep(s, p, v.slot);
        }
      }
      SubStoreUnique(s, r);
    }
  }

  /** Collecting again right after a collection removes nothing: every
      surviving slot is still reachable through survivors. */
  lemma CollectIdempotent(s: Store)
    ensures Collected(Collected(s)) == Collected(s)
  {
    var t := Collected(s);
    forall y | y in t.cache
      ensures Reachable(t, y)
    {
      var p :| IsPath(s, p) && p[|p| - 1] == y;
      SurvivingPath(s, p);
    }
  }

  /** A path of the store stays a path after the collection. */
  lemma {:induction false} SurvivingPath(s: Store, p: seq<nat>)
    requires IsPath(s, p) && p[|p| - 1] in s.cache
    ensures IsPath(Collected(s), p)
    decreases |p|
  {
    var t := Collected(s);
    if |p| > 1 {
      var q := p[..|p| - 1];
      assert IsPath(s, q) by {
        forall i | 0 <= i < |q| - 1
          ensures Edge(s, q[i], q[i + 1])
        {
          assert q[i] == p[i] && q[i + 1] == p[i + 1];
        }
      }
      assert Edge(s, p[|p| - 2], p[|p| - 1]);
      SurvivingPath(s, q);
      var x, y := p[|p| - 2], p[|p| - 1];
      ReachableStep(s, q, y);
      assert Edge(t, x, y) by {
        assert y in Children(s, x);
        var k :| k in s.cache[x] && s.cache[x][k].Ref? && s.cache[x][k].slot == y;
        assert t.cache[x] == s.cache[x];
      }
      assert forall i :: 0 <= i < |p| - 1 ==> Edge(t, p[i], p[i + 1]) by {
        forall i | 0 <= i < |p| - 1
          ensures Edge(t, p[i], p[i + 1])
        {
          if i < |p| - 2 {
            assert p[i] == q[i] && p[i + 1] == q[i + 1];
          }
        }
      }
    } else {
      assert IsPath(s, [ROOT]) && Reachable(s, ROOT);
    }
  }

  /** ROOT holds a reference to a slot other than itself. */
  predicate RootHoldsRef(root: Container) {
    exists k | k in root :: root[k].Ref? && root[k].slot != ROOT
  }

  /** `collect` as written. `_mark` meets the first reference of ROOT to
      another slot, marks it, and then calls the table `record`, which
      raises; `_collect` turns that into "collect error" before anything is
      swept. Only when ROOT holds no such reference does the sweep run, and
      then only ROOT is marked, so only ROOT survives. */
  function CollectAsWritten(s: Store): (r: Outcome<()>)
    requires ROOT in s.cache
    ensures r.Raised? ==> r == Raised(s, CollectError)
    ensures r.Raised? <==> exists k :: k in s.cache[ROOT] && s.cache[ROOT][k].Ref? && s.cache[ROOT][k].slot != ROOT
    ensures r.Ok? ==> r.store.cache.Keys == {ROOT} && r.store.cache[ROOT] == s.cache[ROOT]
    ensures Valid(s) ==> Valid(r.store)
  {
    if RootHoldsRef(s.cache[ROOT]) then Raised(s, CollectError)
    else
      LoneRootValid(s);
      Ok(Sweep(s, {ROOT}), ())
  }

  /** A valid store whose ROOT references no other slot stays valid when
      everything but ROOT is dropped: ROOT cannot reference itself, since a
      reference always names a younger slot. */
  lemma LoneRootValid(s: Store)
    requires ROOT in s.cache && !RootHoldsRef(s.cache[ROOT])
    ensures Valid(s) ==> Valid(Sweep(s, {ROOT}))
  {
    if Valid(s) {
      var r := Sweep(s, {ROOT});
      forall k | k in r.cache[ROOT] ensures WellStored(r, ROOT, r.cache[ROOT][k]) {
        assert WellStored(s, ROOT, s.cache[ROOT][k]);
      }
      SubStoreUnique(s, r);
    }
  }

  /** When ROOT holds no reference, nothing but ROOT is reachable, and the
      collector as written agrees with the intended one. */
  lemma AsWrittenWithoutReferences(s: Store)
    requires Valid(s) && !RootHoldsRef(s.cache[ROOT])
    ensures CollectAsWritten(s) == Ok(Collected(s), ())
  {
    assert Children(s, ROOT) == {} by {
      forall k | k in s.cache[ROOT]
        ensures !s.cache[ROOT][k].Ref?
      {
        assert WellStored(s, ROOT, s.cache[ROOT][k]);
      }
    }
    forall y | y in s.cache && Reachable(s, y)
      ensures y == ROOT
    {
      var p :| IsPath(s, p) && p[|p| - 1] == y;
      assert |p| > 1 ==> Edge(s, p[0], p[1]);
    }
    assert IsPath(s, [ROOT]);
    assert Collected(s).cache == Sweep(s, {ROOT}).cache;
  }
}

/*
 * The collector on concrete stores: what the as-written `collect` does
 * after the most ordinary use of the store, and how the intended one
 * treats reference cycles.
 */
module CollectorFacts {
  import opened Values
  import opened Heap
  import opened Proxy
  import opened Collector

  /** `stable.newtable(stable.global, "x")` followed by `stable.collect()`:
      the intended collector keeps ROOT and the new slot, since ROOT
      references it; the collector as written raises "collect error"
      instead, leaving the store as it was. */
  lemma AsWrittenFailsAfterNewTable()
    ensures var s := NewTable(Init(), Global, LStr("x")).store;
            && Valid(s)
            && CollectAsWritten(s) == Raised(s, CollectError)
            && Collected(s).cache.Keys == {ROOT, 1}
  {
    var s := NewTable(Init(), Global, LStr("x")).store;
    assert s.cache[ROOT][KStr("x")] == Ref(1);
    assert RootHoldsRef(s.cache[ROOT]);
    assert IsPath(s, [ROOT]);
    assert Edge(s, ROOT, 1);
    ReachableStep(s, [ROOT], 1);
  }

  /** Slots 1 and 2 reference each other and ROOT references 1; slots 3
      and 4 reference each other and nothing references them. */
  function TwoCycles(): (s: Store) {
    Store(map[ROOT := map[KStr("a") := Ref(1)],
              1 := map[KStr("b") := Ref(2)],
              2 := map[KStr("c") := Ref(1)],
              3 := map[KStr("d") := Ref(4)],
              4 := map[KStr("e") := Ref(3)]], 5)
  }

  /** A slot whose container is one reference to a live slot has that slot
      as its only child. */
  lemma OneChild(s: Store, x: nat, k: Key, y: nat)
    requires x in s.cache && y in s.cache && s.cache[x] == map[k := Ref(y)]
    ensures Children(s, x) == {y}
  {
    assert k in s.cache[x];
    assert y in Children(s, x);
  }

  /** A cycle reachable from ROOT survives a collection and an unreachable
      cycle is removed, although each slot of it is still referenced. */
  lemma CyclesCollected()
    ensures Collected(TwoCycles()).cache.Keys == {ROOT, 1, 2}
  {
    var s := TwoCycles();
    var live: set<nat> := {ROOT, 1, 2};
    OneChild(s, ROOT, KStr("a"), 1);
    OneChild(s, 1, KStr("b"), 2);
    OneChild(s, 2, KStr("c"), 1);
    forall x, y | x in live && Edge(s, x, y)
      ensures y in live
    {
    }
    forall y | Reachable(s, y)
      ensures y in live
    {
      var p :| IsPath(s, p) && p[|p| - 1] == y;
      ClosedHoldsReachable(s, live, p);
    }
    assert IsPath(s, [ROOT]);
    ReachableStep(s, [ROOT], 1);
    ReachableStep(s, [ROOT, 1], 2);
  }
}
