/** Declaration order in go/typecheck/resolver.go and go/typecheck/resolver_type.go: a worklist over a
    graph of dependencies that is taken apart while it is walked. Objects are numbers; every choice that
    Go's map iteration leaves open stays open here. */
module GoResolver {

  datatype Option<T> = None | Some(value: T)

  type Objects = map<nat, set<nat>>

  function Targets(g: Objects, a: nat): set<nat> { if a in g then g[a] else {} }

  /** ObjectGraph.Link(). */
  function Linked(g: Objects, from: nat, to: nat): Objects { g[from := Targets(g, from) + {to}] }

  /** The two graphs hold the same edges, in opposite directions. */
  ghost predicate Inverse(fwd: Objects, inv: Objects) {
    forall a: nat, b: nat {:trigger b in Targets(fwd, a)} {:trigger a in Targets(inv, b)} ::
      b in Targets(fwd, a) <==> a in Targets(inv, b)
  }

  /** h is g with edges from the listed objects to `to`. */
  ghost predicate Added(g: Objects, h: Objects, froms: seq<nat>, to: nat) {
    forall a: nat {:trigger Targets(h, a)} :: Targets(h, a) == Targets(g, a) + if a in froms then {to} else {}
  }

  lemma AddedMore(g: Objects, h: Objects, froms: seq<nat>, i: nat, to: nat)
    requires i < |froms| && Added(g, h, froms[..i], to)
    ensures Added(g, Linked(h, froms[i], to), froms[..i + 1], to)
  {
    assert froms[..i + 1] == froms[..i] + [froms[i]];
    forall a: nat ensures Targets(Linked(h, froms[i], to), a)
      == Targets(g, a) + (if a in froms[..i + 1] then {to} else {})
    {
      assert Targets(h, a) == Targets(g, a) + if a in froms[..i] then {to} else {};
    }
  }

  lemma LinkedInverse(fwd: Objects, inv: Objects, from: nat, to: nat)
    requires Inverse(fwd, inv)
    ensures Inverse(Linked(fwd, from, to), Linked(inv, to, from))
  {
    forall a: nat, b: nat
      ensures b in Targets(Linked(fwd, from, to), a) <==> a in Targets(Linked(inv, to, from), b)
    {
      assert b in Targets(fwd, a) <==> a in Targets(inv, b);
    }
  }

  // ---------------------------------------------------------------- reachability

  /** Nothing in s depends on something outside of s. */
  ghost predicate Closed(g: Objects, s: set<nat>) { forall a: nat :: a in s ==> Targets(g, a) <= s }

  /** s is exactly what obj depends on, itself included. */
  ghost predicate IsReach(g: Objects, obj: nat, s: set<nat>) {
    obj in s && Closed(g, s) && forall t: set<nat> :: obj in t && Closed(g, t) ==> s <= t
  }

  /** Something obj depends on, or obj itself, is not of the wanted class. */
  ghost predicate ReachesBad(g: Objects, obj: nat, good: nat -> bool) {
    forall t: set<nat> {:trigger Closed(g, t)} :: obj in t && Closed(g, t) ==> exists x: nat :: x in t && !good(x)
  }

  // ---------------------------------------------------------------- removing objects

  /** g without the edges to the objects in d. */
  ghost predicate Without(g: Objects, h: Objects, d: set<nat>) {
    forall a: nat {:trigger Targets(h, a)} :: Targets(h, a) == Targets(g, a) - d
  }

  function Union(batches: seq<set<nat>>): set<nat> {
    if batches == [] then {} else Union(batches[..|batches| - 1]) + batches[|batches| - 1]
  }

  /** The batches are disjoint, and an object depends on objects in earlier batches or its own. */
  ghost predicate SafeOrder(g: Objects, batches: seq<set<nat>>) {
    forall i :: 0 <= i < |batches| ==>
      && batches[i] !! Union(batches[..i])
      && forall a: nat :: a in batches[i] ==> Targets(g, a) <= Union(batches[..i]) + batches[i]
  }

  /** Everything that a depends on is in d. */
  predicate Ready(g: Objects, d: set<nat>, a: nat) { Targets(g, a) <= d }

  /** What may be declared once d is: one object whose dependencies are all in d; only when no object left is such, exactly
      what one of them reaches among those left, all types. */
  ghost predicate RightBatch(g: Objects, named: set<nat>, d: set<nat>, batch: set<nat>, isType: nat -> bool) {
    || (exists a: nat :: batch == {a} && Ready(g, d, a))
    || ((forall a: nat :: a in named - d ==> !Ready(g, d, a))
        && (exists a: nat :: IsReach(Between(g, named - d), a, batch))
        && (forall a: nat :: a in batch ==> isType(a)))
  }

  ghost predicate RightBatches(g: Objects, named: set<nat>, batches: seq<set<nat>>, isType: nat -> bool) {
    forall i :: 0 <= i < |batches| ==> RightBatch(g, named, Union(batches[..i]), batches[i], isType)
  }

  /** The same for the graph h that is left, and the objects m that are left. */
  ghost predicate NextOne(h: Objects, m: set<nat>, batch: set<nat>) {
    exists a: nat :: a in m && batch == {a} && Targets(h, a) == {}
  }

  ghost predicate NextTypes(h: Objects, m: set<nat>, batch: set<nat>, isType: nat -> bool) {
    && (forall a: nat :: a in m ==> Targets(h, a) != {})
    && (exists a: nat :: a in m && IsReach(h, a, batch))
    && (forall a: nat :: a in batch ==> isType(a))
  }

  lemma SafeMore(g: Objects, batches: seq<set<nat>>, s: set<nat>)
    requires SafeOrder(g, batches) && s !! Union(batches)
    requires forall a: nat :: a in s ==> Targets(g, a) <= Union(batches) + s
    ensures SafeOrder(g, batches + [s]) && Union(batches + [s]) == Union(batches) + s
  {
    var more := batches + [s];
    assert more[..|batches|] == batches;
    forall i | 0 <= i < |more|
      ensures more[i] !! Union(more[..i])
      ensures forall a: nat :: a in more[i] ==> Targets(g, a) <= Union(more[..i]) + more[i]
    {
      if i < |batches| {
        assert more[..i] == batches[..i] && more[i] == batches[i];
      } else {
        assert more[..i] == batches;
      }
    }
  }

  lemma RightMore(g: Objects, named: set<nat>, batches: seq<set<nat>>, s: set<nat>, isType: nat -> bool)
    requires RightBatches(g, named, batches, isType) && RightBatch(g, named, Union(batches), s, isType)
    ensures RightBatches(g, named, batches + [s], isType)
  {
    var more := batches + [s];
    forall i | 0 <= i < |more| ensures RightBatch(g, named, Union(more[..i]), more[i], isType) {
      if i < |batches| {
        assert more[..i] == batches[..i] && more[i] == batches[i];
      } else {
        assert more[..i] == batches;
      }
    }
  }

  class Resolver {
    var depfwd: Objects
    var depinv: Objects
    var declared: seq<set<nat>>
    var errors: nat

    constructor ()
      ensures depfwd == map[] && depinv == map[] && declared == [] && errors == 0 && Inverse(depfwd, depinv)
    {
      depfwd, depinv, declared, errors := map[], map[], [], 0;
    }

    /** deps(): adds the edges froms -> to, and keeps the graphs inverse. */
    method Deps(froms: seq<nat>, to: nat)
      requires Inverse(depfwd, depinv)
      modifies this`depfwd, this`depinv
      ensures Inverse(depfwd, depinv)
      ensures Added(old(depfwd), depfwd, if froms == [to] then [] else froms, to)
    {
      if |froms| == 0 || (|froms| == 1 && froms[0] == to) {
        return;
      }
      for i := 0 to |froms|
        invariant Inverse(depfwd, depinv) && Added(old(depfwd), depfwd, froms[..i], to)
      {
        AddedMore(old(depfwd), depfwd, froms, i, to);
        LinkedInverse(depfwd, depinv, froms[i], to);
        depfwd := Linked(depfwd, froms[i], to);
        depinv := Linked(depinv, to, froms[i]);
      }
      assert froms[..|froms|] == froms;
    }

    /** pickObjectWithoutDeps(): in any order of the map. */
    method PickWithoutDeps(m: set<nat>) returns (r: Option<nat>)
      ensures r.Some? ==> r.value in m && Targets(depfwd, r.value) == {}
      ensures r.None? ==> forall a :: a in m ==> Targets(depfwd, a) != {}
    {
      var left := m;
      while left != {}
        invariant left <= m && forall a :: a in m && a !in left ==> Targets(depfwd, a) != {}
        decreases left
      {
        var a :| a in left;
        if |Targets(depfwd, a)| == 0 {
          return Some(a);
        }
        left := left - {a};
      }
      return None;
    }

    /** removeDeps(): takes obj out of the dependencies of everything that waits for it. */
    method RemoveDeps(obj: nat)
      requires Inverse(depfwd, depinv)
      modifies this`depfwd, this`depinv
      ensures Inverse(depfwd, depinv) && Without(old(depfwd), depfwd, {obj})
    {
      var waiting := Targets(depinv, obj);
      ghost var all := waiting;
      while waiting != {}
        invariant waiting <= all && depinv == old(depinv)
        invariant forall a: nat {:trigger Targets(depfwd, a)} ::
          Targets(depfwd, a) == Targets(old(depfwd), a) - (if a in all && a !in waiting then {obj} else {})
        decreases waiting
      {
        var a :| a in waiting;
        ghost var before := depfwd;
        var dep := Targets(depfwd, a) - {obj};
        TargetsSet(depfwd, a, dep);
        if dep == {} {
          depfwd := depfwd - {a};
        } else {
          depfwd := depfwd[a := dep];
        }
        assert Targets(before, a) == Targets(old(depfwd), a) && dep == Targets(old(depfwd), a) - {obj};
        forall x: nat ensures Targets(depfwd, x)
          == Targets(old(depfwd), x) - (if x in all && x !in waiting - {a} then {obj} else {})
        {
          assert Targets(depfwd, x) == if x == a then dep else Targets(before, x);
        }
        waiting := waiting - {a};
      }
      forall a: nat ensures Targets(depfwd, a) == Targets(old(depfwd), a) - {obj} {
        assert obj in Targets(old(depfwd), a) <==> a in all;
      }
      depinv := depinv - {obj};
      forall a: nat, b: nat ensures b in Targets(depfwd, a) <==> a in Targets(depinv, b) {
        assert b in Targets(old(depfwd), a) <==> a in Targets(old(depinv), b);
      }
    }

    method RemoveDepsSet(s: set<nat>)
      requires Inverse(depfwd, depinv)
      modifies this`depfwd, this`depinv
      ensures Inverse(depfwd, depinv) && Without(old(depfwd), depfwd, s)
    {
      var left := s;
      while left != {}
        invariant left <= s && Inverse(depfwd, depinv) && Without(old(depfwd), depfwd, s - left)
        decreases left
      {
        var obj :| obj in left;
        ghost var before := depfwd;
        RemoveDeps(obj);
        forall a: nat ensures Targets(depfwd, a) == Targets(old(depfwd), a) - (s - (left - {obj})) {
          assert Targets(before, a) == Targets(old(depfwd), a) - (s - left);
        }
        left := left - {obj};
      }
      assert s - left == s;
    }

    /** getTransitiveDeps(): exactly what obj depends on, or None when some of it is not of the class.
        `all` bounds the objects that the graph mentions. */
    method GetTransitiveDeps(obj: nat, good: nat -> bool, ghost all: set<nat>) returns (r: Option<set<nat>>)
      requires obj in all && Closed(depfwd, all)
      ensures r.Some? ==> IsReach(depfwd, obj, r.value) && forall a: nat :: a in r.value ==> good(a)
      ensures r.None? ==> ReachesBad(depfwd, obj, good)
    {
      if !good(obj) {
        return None;
      }
      var queue: set<nat> := {};
      var done: set<nat> := {};
      var curr := Some(obj);
      while curr.Some?
        invariant Frontier(obj, done, queue, curr, good, all)
        decreases all - done, curr.Some?
      {
        var a := curr.value;
        done := done + {a};
        var deps := Targets(depfwd, a);
        if exists d :: d in deps && !good(d) {
          BadReached(obj, done, a, good);
          return None;
        }
        queue := queue + (deps - done);
        curr, queue := Pick(queue);
      }
      return Some(done);
    }

    /** What the loop keeps: everything seen depends on nothing unseen, and every closed set that holds obj
        holds all of it. */
    ghost predicate Frontier(obj: nat, done: set<nat>, queue: set<nat>, curr: Option<nat>, good: nat -> bool,
                             all: set<nat>)
      reads this
    {
      var front := queue + if curr.Some? then {curr.value} else {};
      && obj in done + front && done !! front && done + front <= all && (curr.None? ==> queue == {})
      && (curr.Some? ==> curr.value !in queue)
      && (forall a: nat :: a in done ==> Targets(depfwd, a) <= done + front)
      && (forall a: nat :: a in done + front ==> good(a))
      && (forall t: set<nat> :: obj in t && Closed(depfwd, t) ==> done + front <= t)
    }

    lemma BadReached(obj: nat, done: set<nat>, a: nat, good: nat -> bool)
      requires a in done && forall t: set<nat> :: obj in t && Closed(depfwd, t) ==> done <= t
      requires exists d: nat :: d in Targets(depfwd, a) && !good(d)
      ensures ReachesBad(depfwd, obj, good)
    {
      var d :| d in Targets(depfwd, a) && !good(d);
      forall t: set<nat> | obj in t && Closed(depfwd, t) ensures exists x: nat :: x in t && !good(x) {
        assert a in t && d in t;
      }
    }

    /** pick(): takes any object out of a set. */
    method Pick(s: set<nat>) returns (r: Option<nat>, rest: set<nat>)
      ensures s == {} ==> r == None && rest == {}
      ensures s != {} ==> r.Some? && r.value in s && rest == s - {r.value}
    {
      if s == {} {
        return None, {};
      }
      var a :| a in s;
      return Some(a), s - {a};
    }

    /** findObjCycle(): the dependencies of some object whose dependencies are all of the class. */
    method FindObjCycle(m: set<nat>, good: nat -> bool) returns (r: Option<set<nat>>)
      requires Closed(depfwd, m)
      ensures r.Some? ==> (exists a :: a in m && IsReach(depfwd, a, r.value)) && forall a: nat :: a in r.value ==> good(a)
      ensures r.None? ==> forall a :: a in m ==> ReachesBad(depfwd, a, good)
    {
      var left := m;
      while left != {}
        invariant left <= m && forall a :: a in m && a !in left ==> ReachesBad(depfwd, a, good)
        decreases left
      {
        var a :| a in left;
        r := GetTransitiveDeps(a, good, m);
        if r.Some? {
          return;
        }
        left := left - {a};
      }
      return None;
    }

    /** declareGlobals(): declares every object of the worklist once, after everything it depends on or
        together with a set of types that depend on each other; or stops with an error, when every
        object left depends on something and no closed set of types is left. */
    method DeclareGlobals(named: set<nat>, isType: nat -> bool)
      requires Inverse(depfwd, depinv) && Closed(depfwd, named) && declared == []
      modifies this
      ensures Inverse(depfwd, depinv)
      ensures SafeOrder(old(depfwd), declared) && Union(declared) <= named
      ensures RightBatches(old(depfwd), named, declared, isType)
      ensures errors == old(errors) + if Union(declared) == named then 0 else 1
      ensures Union(declared) == named <==> Declarable(old(depfwd), named, isType)
      ensures Union(declared) != named ==> Blocked(old(depfwd), named - Union(declared), isType)
    {
      ghost var g := depfwd;
      var m := named;
      var more := true;
      assert Avoids(g, Union(declared), isType);
      while m != {} && more
        invariant Underway(g, named, isType) && errors == old(errors) + if more then 0 else 1
        invariant m == named - Union(declared) && (!more ==> m != {} && Blocked(g, m, isType))
        decreases m, more
      {
        m, more := Round(m, g, named, isType);
      }
      OutcomeExact(g, named, Union(declared), isType);
    }

    /** What every turn of declareGlobals() keeps. */
    ghost predicate Underway(g: Objects, named: set<nat>, isType: nat -> bool)
      reads this
    {
      && Inverse(depfwd, depinv) && Union(declared) <= named && Without(g, depfwd, Union(declared))
      && SafeOrder(g, declared) && RightBatches(g, named, declared, isType) && Avoids(g, Union(declared), isType)
    }

    /** One turn: a batch is declared, or an error stops the loop. */
    method Round(m: set<nat>, ghost g: Objects, ghost named: set<nat>, isType: nat -> bool)
      returns (rest: set<nat>, more: bool)
      requires Underway(g, named, isType) && Closed(g, named) && m == named - Union(declared) && m != {}
      modifies this
      ensures Underway(g, named, isType) && rest == named - Union(declared)
      ensures if more then rest < m else rest == m && Blocked(g, m, isType)
      ensures errors == old(errors) + if more then 0 else 1
    {
      RestClosed(g, depfwd, named, Union(declared), m);
      var batch := NextBatch(m, isType);
      if batch.None? {
        errors := errors + 1;
        StuckRest(g, depfwd, named, m, Union(declared), isType);
        return m, false;
      }
      StillAvoids(g, depfwd, Union(declared), batch.value, isType);
      Declare(batch.value, m, g, named, isType);
      return m - batch.value, true;
    }

    /** One object without dependencies; when there is none, what some object reaches, if these are all types; else
        nothing. */
    method NextBatch(m: set<nat>, isType: nat -> bool) returns (r: Option<set<nat>>)
      requires Closed(depfwd, m)
      ensures r.Some? ==> r.value != {} && r.value <= m && Closed(depfwd, r.value)
      ensures r.Some? ==> NextOne(depfwd, m, r.value) || NextTypes(depfwd, m, r.value, isType)
      ensures r.None? ==> forall a: nat :: a in m ==> Targets(depfwd, a) != {} && ReachesBad(depfwd, a, isType)
    {
      var obj := PickWithoutDeps(m);
      if obj.Some? {
        return Some({obj.value});
      }
      r := FindObjCycle(m, isType);
    }

    /** Declares a batch and removes it from the dependencies of the others. */
    method Declare(s: set<nat>, ghost m: set<nat>, ghost g: Objects, ghost named: set<nat>, ghost isType: nat -> bool)
      requires Inverse(depfwd, depinv) && Without(g, depfwd, Union(declared)) && SafeOrder(g, declared)
      requires RightBatches(g, named, declared, isType) && Closed(g, named) && m == named - Union(declared)
      requires s <= m && Closed(depfwd, s) && (NextOne(depfwd, m, s) || NextTypes(depfwd, m, s, isType))
      modifies this`depfwd, this`depinv, this`declared
      ensures Inverse(depfwd, depinv) && declared == old(declared) + [s]
      ensures Union(declared) == old(Union(declared)) + s && Without(g, depfwd, Union(declared))
      ensures SafeOrder(g, declared) && RightBatches(g, named, declared, isType)
    {
      forall a: nat | a in s ensures Targets(g, a) <= Union(declared) + s {
        assert Targets(depfwd, a) == Targets(g, a) - Union(declared);
      }
      SafeMore(g, declared, s);
      NextIsRight(g, depfwd, named, m, Union(declared), s, isType);
      RightMore(g, named, declared, s, isType);
      ghost var before := depfwd;
      RemoveDepsSet(s);
      forall a: nat ensures Targets(depfwd, a) == Targets(g, a) - (Union(declared) + s) {
        assert Targets(before, a) == Targets(g, a) - Union(declared);
      }
      declared := declared + [s];
    }
  }

  lemma TargetsSet(g: Objects, a: nat, s: set<nat>)
    ensures forall x: nat :: Targets(g[a := s], x) == (if x == a then s else Targets(g, x))
    ensures forall x: nat :: Targets(g - {a}, x) == (if x == a then {} else Targets(g, x))
  {
    forall x: nat ensures Targets(g[a := s], x) == (if x == a then s else Targets(g, x)) {
      if x in g[a := s] {
        assert x == a || x in g;
      }
    }
  }

  /** A batch that is right for the graph that is left is right for the whole graph. */
  lemma NextIsRight(g: Objects, h: Objects, named: set<nat>, m: set<nat>, d: set<nat>, batch: set<nat>, isType: nat -> bool)
    requires Closed(g, named) && Without(g, h, d) && m == named - d
    requires NextOne(h, m, batch) || NextTypes(h, m, batch, isType)
    ensures RightBatch(g, named, d, batch, isType)
  {
    ReadyExact(g, h, d);
    if NextOne(h, m, batch) {
      var a: nat :| a in m && batch == {a} && Targets(h, a) == {};
      assert Ready(g, d, a);
    } else {
      var a: nat :| a in m && IsReach(h, a, batch);
      ReachBetween(g, h, named, m, d, a, batch);
    }
  }

  lemma ReadyExact(g: Objects, h: Objects, d: set<nat>)
    requires Without(g, h, d)
    ensures forall a: nat :: Ready(g, d, a) <==> Targets(h, a) == {}
  {
    forall a: nat ensures Ready(g, d, a) <==> Targets(h, a) == {} {
      assert Targets(h, a) == Targets(g, a) - d;
      if Targets(h, a) == {} {
        forall x | x in Targets(g, a) ensures x in d {
          assert x !in Targets(g, a) - d;
        }
      }
    }
  }

  lemma ReachBetween(g: Objects, h: Objects, named: set<nat>, m: set<nat>, d: set<nat>, a: nat, s: set<nat>)
    requires Closed(g, named) && Without(g, h, d) && m == named - d && a in m && IsReach(h, a, s)
    ensures IsReach(Between(g, m), a, s)
  {
    RestClosed(g, h, named, d, m);
    assert s <= m;
    forall x: nat | x in s ensures Targets(Between(g, m), x) <= s {
      SameBetween(g, h, named, m, d, x);
    }
    forall t: set<nat> | a in t && Closed(Between(g, m), t) ensures s <= t {
      ClosedLeft(g, h, named, m, d, t);
      assert s <= t * m;
    }
  }

  /** What is left depends on nothing outside of it. */
  lemma RestClosed(g: Objects, h: Objects, named: set<nat>, d: set<nat>, m: set<nat>)
    requires Closed(g, named) && Without(g, h, d) && m == named - d
    ensures Closed(h, m)
  {
    forall a: nat | a in m ensures Targets(h, a) <= m {
      assert Targets(h, a) == Targets(g, a) - d;
    }
  }

  // ---------------------------------------------------------------- what can be declared

  /** The graph between the objects of s. */
  function Between(g: Objects, s: set<nat>): Objects { map a | a in s :: Targets(g, a) * s }

  /** An object depends on one in s, and between the objects of s reaches one that is no type. */
  ghost predicate Waits(g: Objects, s: set<nat>, a: nat, isType: nat -> bool) {
    Targets(g, a) * s != {} && ReachesBad(Between(g, s), a, isType)
  }

  ghost predicate Blocked(g: Objects, s: set<nat>, isType: nat -> bool) {
    s != {} && forall a: nat :: a in s ==> Waits(g, s, a, isType)
  }

  ghost predicate Declarable(g: Objects, named: set<nat>, isType: nat -> bool) {
    forall s: set<nat> :: s <= named ==> !Blocked(g, s, isType)
  }

  ghost predicate Avoids(g: Objects, d: set<nat>, isType: nat -> bool) {
    forall s: set<nat> :: Blocked(g, s, isType) ==> s !! d
  }

  /** No batch takes anything out of a blocked set, whatever the order of the maps. */
  lemma StillAvoids(g: Objects, h: Objects, d: set<nat>, batch: set<nat>, isType: nat -> bool)
    requires Without(g, h, d) && Avoids(g, d, isType) && Closed(h, batch)
    requires (exists a: nat :: batch == {a} && Targets(h, a) == {}) || (forall a: nat :: a in batch ==> isType(a))
    ensures Avoids(g, d + batch, isType)
  {
    forall s: set<nat> | Blocked(g, s, isType) ensures s !! d + batch {
      assert s !! d;
      BatchApart(g, h, d, batch, s, isType);
    }
  }

  lemma BatchApart(g: Objects, h: Objects, d: set<nat>, batch: set<nat>, s: set<nat>, isType: nat -> bool)
    requires Without(g, h, d) && s !! d && Blocked(g, s, isType) && Closed(h, batch)
    requires (exists a: nat :: batch == {a} && Targets(h, a) == {}) || (forall a: nat :: a in batch ==> isType(a))
    ensures s !! batch
  {
    ClosedBetween(g, h, d, batch, s);
    if exists a: nat :: batch == {a} && Targets(h, a) == {} {
      var a: nat :| batch == {a} && Targets(h, a) == {};
      NotWaiting(g, h, d, s, a);
      assert !Waits(g, s, a, isType);
    } else {
      forall a: nat | a in batch ensures a !in s {
        NoneBad(Between(g, s), batch, a, isType);
        assert !Waits(g, s, a, isType);
      }
    }
  }

  lemma NotWaiting(g: Objects, h: Objects, d: set<nat>, s: set<nat>, a: nat)
    requires Without(g, h, d) && s !! d && Targets(h, a) == {}
    ensures Targets(g, a) * s == {}
  {
    assert Targets(h, a) == Targets(g, a) - d;
    forall b | b in Targets(g, a) ensures b !in s {
      assert b !in Targets(g, a) - d;
    }
  }

  lemma NoneBad(g: Objects, t: set<nat>, a: nat, isType: nat -> bool)
    requires Closed(g, t) && a in t && forall x: nat :: x in t ==> isType(x)
    ensures !ReachesBad(g, a, isType)
  {
  }

  /** Everything is declared exactly when nothing was blocked from the start. */
  lemma OutcomeExact(g: Objects, named: set<nat>, d: set<nat>, isType: nat -> bool)
    requires Avoids(g, d, isType) && d <= named && (d != named ==> Blocked(g, named - d, isType))
    ensures d == named <==> Declarable(g, named, isType)
  {
  }

  lemma ClosedBetween(g: Objects, h: Objects, d: set<nat>, t: set<nat>, s: set<nat>)
    requires Without(g, h, d) && s !! d && Closed(h, t)
    ensures Closed(Between(g, s), t)
  {
    forall x: nat | x in t ensures Targets(Between(g, s), x) <= t {
      assert Targets(h, x) == Targets(g, x) - d;
    }
  }

  /** What is left without a next batch is blocked. */
  lemma StuckRest(g: Objects, h: Objects, named: set<nat>, m: set<nat>, d: set<nat>, isType: nat -> bool)
    requires Closed(g, named) && Without(g, h, d) && m == named - d && m != {}
    requires forall a: nat :: a in m ==> Targets(h, a) != {} && ReachesBad(h, a, isType)
    ensures Blocked(g, m, isType)
  {
    forall a: nat | a in m ensures Waits(g, m, a, isType) {
      SameBetween(g, h, named, m, d, a);
      forall t: set<nat> | a in t && Closed(Between(g, m), t) ensures exists x: nat :: x in t && !isType(x) {
        ClosedLeft(g, h, named, m, d, t);
        var x: nat :| x in t * m && !isType(x);
      }
    }
  }

  lemma ClosedLeft(g: Objects, h: Objects, named: set<nat>, m: set<nat>, d: set<nat>, t: set<nat>)
    requires Closed(g, named) && Without(g, h, d) && m == named - d && Closed(Between(g, m), t)
    ensures Closed(h, t * m)
  {
    forall x: nat | x in t * m ensures Targets(h, x) <= t * m {
      SameBetween(g, h, named, m, d, x);
    }
  }

  lemma SameBetween(g: Objects, h: Objects, named: set<nat>, m: set<nat>, d: set<nat>, a: nat)
    requires Closed(g, named) && Without(g, h, d) && m == named - d && a in m
    ensures Targets(h, a) == Targets(g, a) * m == Targets(Between(g, m), a)
  {
    assert Targets(h, a) == Targets(g, a) - d;
  }

  /** A graph without cycles, one whose edges go down in rank, is declared completely, whatever is a type. */
  lemma AcyclicDeclarable(g: Objects, named: set<nat>, isType: nat -> bool, rank: nat -> nat)
    requires forall x: nat, y: nat :: x in named && y in Targets(g, x) ==> rank(y) < rank(x)
    ensures Declarable(g, named, isType)
  {
    forall s: set<nat> | s <= named ensures !Blocked(g, s, isType) {
      if Blocked(g, s, isType) {
        var a :| a in s;
        Descent(g, s, a, isType, rank);
      }
    }
  }

  lemma {:induction false} Descent(g: Objects, s: set<nat>, a: nat, isType: nat -> bool, rank: nat -> nat)
    requires a in s && Blocked(g, s, isType)
    requires forall x: nat, y: nat :: x in s && y in Targets(g, x) ==> rank(y) < rank(x)
    ensures false
    decreases rank(a)
  {
    assert Waits(g, s, a, isType);
    var b :| b in Targets(g, a) * s;
    Descent(g, s, b, isType, rank);
  }

  /** So is a graph of types only, with any cycles. */
  lemma TypesDeclarable(g: Objects, named: set<nat>, isType: nat -> bool)
    requires forall a: nat :: a in named ==> isType(a)
    ensures Declarable(g, named, isType)
  {
    forall s: set<nat> | s <= named ensures !Blocked(g, s, isType) {
      assert Closed(Between(g, s), s);
      assert forall a: nat :: a in s ==> !Waits(g, s, a, isType);
    }
  }
}
