/** The FIB updater: turns one RIB update into FIB updates and inherited-route records by walking
    the affected subtrees. Each method is proved against the per-(name, face) effects of `RibSpec`. */
module FibUpdaters {
  import opened Options
  import opened Names
  import opened RibSpec
  import opened Seqs
  import opened RibTree
  import opened RouteSets
  import opened RibQueries

  datatype FibAction = ADD_NEXTHOP | REMOVE_NEXTHOP

  datatype FibUpdate = FibUpdate(name: Name, face: Face, cost: nat, action: FibAction)

  function CreateAddUpdate(n: Name, f: Face, cost: nat): FibUpdate { FibUpdate(n, f, cost, ADD_NEXTHOP) }

  /** A removal carries the default cost 0. */
  function CreateRemoveUpdate(n: Name, f: Face): FibUpdate { FibUpdate(n, f, 0, REMOVE_NEXTHOP) }

  function ActOf(u: FibUpdate): Act { if u.action == ADD_NEXTHOP then Add(u.cost) else Remove }

  // ---- The lists of FIB updates ----

  predicate SameKey(u: FibUpdate, n: Name, f: Face) { u.name == n && u.face == f }

  /** No two updates in a list are for the same name and face. */
  predicate UniqueKeys(s: seq<FibUpdate>) {
    forall i, j | 0 <= i < j < |s| :: !SameKey(s[j], s[i].name, s[i].face)
  }

  function Listed(s: seq<FibUpdate>, n: Name, f: Face): (x: Option<Act>)
    ensures x.Some? ==> exists u :: u in s && SameKey(u, n, f) && x.value == ActOf(u)
    ensures x.None? ==> forall u | u in s :: !SameKey(u, n, f)
  {
    if s == [] then None
    else if SameKey(s[0], n, f) then Some(ActOf(s[0]))
    else Listed(s[1..], n, f)
  }

  lemma {:induction false} ListedAt(s: seq<FibUpdate>, u: FibUpdate)
    requires UniqueKeys(s) && u in s
    ensures Listed(s, u.name, u.face) == Some(ActOf(u))
  {
  }

  lemma {:induction false} ListedSame(s: seq<FibUpdate>, t: seq<FibUpdate>, n: Name, f: Face)
    requires UniqueKeys(s) && UniqueKeys(t)
    requires forall u: FibUpdate | SameKey(u, n, f) :: u in s <==> u in t
    ensures Listed(s, n, f) == Listed(t, n, f)
  {
    if u :| u in s && SameKey(u, n, f) {
      ListedAt(s, u);
      ListedAt(t, u);
    }
  }

  /** The updater's fields as a value. */
  datatype Lists = Lists(face: Face, batch: seq<FibUpdate>, nonBatch: seq<FibUpdate>, inherited: seq<RibUpdate>)

  /** What the lists say about one name and face. */
  function At(x: Lists, n: Name, f: Face): Effect {
    Effect(Listed(if f == x.face then x.batch else x.nonBatch, n, f), Recorded(x.inherited, n, f))
  }

  predicate ListsOk(x: Lists) {
    && UniqueKeys(x.batch) && UniqueKeys(x.nonBatch)
    && (forall u | u in x.batch :: u.face == x.face && (u.action == REMOVE_NEXTHOP ==> u.cost == 0))
    && (forall u | u in x.nonBatch :: u.face != x.face && (u.action == REMOVE_NEXTHOP ==> u.cost == 0))
    && RecordsOk(x.inherited)
  }

  function When(b: bool, x: Effect): Effect { if b then x else NOTHING }

  /** Entries from `c` downwards. */
  ghost function Subtree(t: Table, c: Name): set<Name> { set n | n in t && c <= n }

  ghost function StrictSubtree(t: Table, e: Name): set<Name> { set n | n in t && e < n }

  /** Effect on `n` of a traversal that starts at `c`. */
  ghost function PushedFrom(a: PlainRib, c: Name, add: Option<Route>, rem: bool, n: Name, f: Face): Effect {
    if ReachedFrom(a, c, n, f) then Adjust(a[n], add, rem, f) else NOTHING
  }

  /** Effect of removing the routes of `s` from the entry `x` at `c`. */
  function RemovedAll(x: Entry, c: Name, s: RouteSet, n: Name, f: Face): Effect {
    When(n == c && SetFind(s, f).Some? && !InheritsOn(x.routes, f) && f in Faces(x.inherited), DROP_INHERITED)
  }

  /** Effect of adding the routes of `s` to the entry `x` at `c`. */
  function AddedAll(x: Entry, c: Name, s: RouteSet, n: Name, f: Face): Effect {
    var r := SetFind(s, f);
    if n == c && r.Some? && !InheritsOn(x.routes, f) && !HasFace(x.routes, f)
    then AddInherited(r.value.cost) else NOTHING
  }

  function RemovedOne(x: Entry, c: Name, r: Route, n: Name, f: Face): Effect {
    When(n == c && f == r.face && f in Faces(x.inherited), DROP_INHERITED)
  }

  function AddedOne(x: Entry, c: Name, r: Route, n: Name, f: Face): Effect {
    When(n == c && f == r.face && !HasFace(x.routes, f), AddInherited(r.cost))
  }

  ghost predicate RemovesUpTo(p: Lists, q: Lists, x: Entry, c: Name, s: RouteSet, j: nat)
    requires j <= |s|
  {
    forall n, f :: At(q, n, f) == Then(At(p, n, f), RemovedAll(x, c, s[..j], n, f))
  }

  ghost predicate AddsUpTo(p: Lists, q: Lists, x: Entry, c: Name, s: RouteSet, j: nat)
    requires j <= |s|
  {
    forall n, f :: At(q, n, f) == Then(At(p, n, f), AddedAll(x, c, s[..j], n, f))
  }

  lemma {:induction false} RemovesOneMore(p: Lists, q: Lists, q': Lists, x: Entry, c: Name, s: RouteSet, j: nat)
    requires SetOk(s) && j < |s| && RemovesUpTo(p, q, x, c, s, j)
    requires if InheritsOn(x.routes, s[j].face) then q' == q
             else forall n, f :: At(q', n, f) == Then(At(q, n, f), RemovedOne(x, c, s[j], n, f))
    ensures RemovesUpTo(p, q', x, c, s, j + 1)
  {
    FindGrows(s, j);
  }

  lemma {:induction false} AddsOneMore(p: Lists, q: Lists, q': Lists, x: Entry, c: Name, s: RouteSet, j: nat)
    requires SetOk(s) && j < |s| && AddsUpTo(p, q, x, c, s, j)
    requires if InheritsOn(x.routes, s[j].face) then q' == q
             else forall n, f :: At(q', n, f) == Then(At(q, n, f), AddedOne(x, c, s[j], n, f))
    ensures AddsUpTo(p, q', x, c, s, j + 1)
  {
    FindGrows(s, j);
  }

  /** From `p` to `q`, the lists take a whole traversal of the subtree at `c`. */
  ghost predicate Traverses(p: Lists, q: Lists, a: PlainRib, c: Name, add: RouteSet, rem: RouteSet) {
    forall n, f :: At(q, n, f) == Then(At(p, n, f), PushedFrom(a, c, SetFind(add, f), SetFind(rem, f).Some?, n, f))
  }

  /** From `p` to `q`, the lists take a traversal of everything below `e`. */
  ghost predicate Pushes(p: Lists, q: Lists, a: PlainRib, e: Name, add: RouteSet, rem: RouteSet) {
    forall n, f :: At(q, n, f) == Then(At(p, n, f), Pushed(a, e, SetFind(add, f), SetFind(rem, f).Some?, n, f))
  }

  ghost predicate Covered(kids: seq<Name>, i: nat, n: Name)
    requires i <= |kids|
  {
    exists k :: 0 <= k < i && kids[k] <= n
  }

  ghost predicate PushesUpTo(p: Lists, q: Lists, a: PlainRib, e: Name, kids: seq<Name>, i: nat, add: RouteSet,
      rem: RouteSet)
    requires i <= |kids|
  {
    forall n, f :: At(q, n, f) ==
      Then(At(p, n, f), When(Covered(kids, i, n), Pushed(a, e, SetFind(add, f), SetFind(rem, f).Some?, n, f)))
  }

  /** `kids` lists the entries right below `e`, once each. */
  ghost predicate AreKids(a: PlainRib, e: Name, kids: seq<Name>) {
    Distinct(kids) && forall c :: c in kids <==> IsKid(a.Keys, e, c)
  }

  lemma {:induction false} PushesOneMore(p: Lists, q: Lists, q': Lists, a: PlainRib, e: Name, kids: seq<Name>,
      i: nat, add: RouteSet, rem: RouteSet)
    requires AreKids(a, e, kids) && i < |kids|
    requires PushesUpTo(p, q, a, e, kids, i, add, rem) && Traverses(q, q', a, kids[i], add, rem)
    ensures PushesUpTo(p, q', a, e, kids, i + 1, add, rem)
  {
    var c := kids[i];
    forall n, f: Face
      ensures At(q', n, f) ==
        Then(At(p, n, f), When(Covered(kids, i + 1, n), Pushed(a, e, SetFind(add, f), SetFind(rem, f).Some?, n, f)))
    {
      assert kids[i] in kids;
      if c <= n {
        ReachedThroughKid(a, e, c, n, f);
        forall k | 0 <= k < i && kids[k] <= n ensures false {
          assert kids[k] in kids;
          KidIsUnique(a.Keys, e, n, c, kids[k]);
        }
        assert Covered(kids, i + 1, n);
      } else {
        assert Covered(kids, i + 1, n) <==> Covered(kids, i, n);
      }
    }
  }

  lemma {:induction false} PushesAll(p: Lists, q: Lists, a: PlainRib, e: Name, kids: seq<Name>, add: RouteSet,
      rem: RouteSet)
    requires AreKids(a, e, kids) && PushesUpTo(p, q, a, e, kids, |kids|, add, rem)
    ensures Pushes(p, q, a, e, add, rem)
  {
    forall n, f: Face | Reached(a, e, n, f) ensures Covered(kids, |kids|, n) {
      var c := ReachedHasKid(a, e, n, f);
      assert c in kids;
    }
  }

  lemma {:induction false} TraversalParts(p: Lists, q: Lists, q': Lists, q'': Lists, a: PlainRib, x: Entry, c: Name,
      add: RouteSet, rem: RouteSet)
    requires c in a && a[c] == NodeOf(x) && x.nCapture == 0 && SetOk(add) && SetOk(rem)
    requires RemovesUpTo(p, q, x, c, rem, |rem|) && AddsUpTo(q, q', x, c, add, |add|)
    requires Pushes(q', q'', a, c, Unclaimed(add, x.routes), Unclaimed(rem, x.routes))
    ensures Traverses(p, q'', a, c, add, rem)
  {
    assert rem[..|rem|] == rem && add[..|add|] == add;
    forall n, f: Face
      ensures At(q'', n, f) == Then(At(p, n, f), PushedFrom(a, c, SetFind(add, f), SetFind(rem, f).Some?, n, f))
    {
      UnclaimedFinds(add, x.routes, f);
      UnclaimedFinds(rem, x.routes, f);
      TraversalAt(a, x, c, SetFind(add, f), SetFind(rem, f).Some?, n, f);
    }
  }

  lemma {:induction false} CapturedTraversal(p: Lists, a: PlainRib, x: Entry, c: Name, add: RouteSet, rem: RouteSet)
    requires c in a && a[c] == NodeOf(x) && x.nCapture > 0
    ensures Traverses(p, p, a, c, add, rem)
  {
    forall n, f: Face ensures !ReachedFrom(a, c, n, f) {
      if c <= n {
        assert n[..|c|] == c;
        assert !OpenAt(a, n[..|c|], f);
      }
    }
  }

  /** One (name, face) of a traversal: the entry itself, then what is below it. */
  lemma {:induction false} TraversalAt(a: PlainRib, x: Entry, c: Name, add: Option<Route>, rem: bool, n: Name,
      f: Face)
    requires c in a && a[c] == NodeOf(x) && x.nCapture == 0
    ensures var free := !InheritsOn(x.routes, f);
      PushedFrom(a, c, add, rem, n, f) ==
        if n == c then When(free, Adjust(a[c], add, rem, f)) else Pushed(a, c, If(free, add), free && rem, n, f)
  {
    if c <= n {
      assert n[..|c|] == c;
      if n == c {
        assert ReachedFrom(a, c, n, f) <==> OpenAt(a, c, f);
      } else {
        assert ReachedFrom(a, c, n, f) <==> OpenAt(a, c, f) && Reached(a, c, n, f);
      }
    }
  }

  /** The entry without its routes: nothing shields it from a removal. */
  function Bare(x: Entry): Entry { x.(routes := []) }

  lemma {:induction false} AddsOneMoreSelf(p: Lists, q: Lists, q': Lists, x: Entry, c: Name, s: RouteSet, j: nat)
    requires SetOk(s) && j < |s| && AddsUpTo(p, q, x, c, s, j)
    requires forall n, f :: At(q', n, f) == Then(At(q, n, f), AddedOne(x, c, s[j], n, f))
    ensures AddsUpTo(p, q', x, c, s, j + 1)
  {
    FindGrows(s, j);
  }

  ghost predicate EmitsNewEntry(p: Lists, q: Lists, a: PlainRib, e: Name, r: Route) {
    forall n, f :: At(q, n, f) == Then(At(p, n, f), EmitNewEntry(a, e, r, n, f))
  }

  ghost predicate EmitsOwn(p: Lists, q: Lists, e: Name, f0: Face, act: Act) {
    forall n, f :: At(q, n, f) == Then(At(p, n, f), When(n == e && f == f0, Effect(Some(act), None)))
  }

  lemma {:induction false} NewEntryParts(p: Lists, q: Lists, q': Lists, q'': Lists, a: PlainRib, e: Name, r: Route,
      x: Entry, above: RouteSet, mine: RouteSet, add: RouteSet, rem: RouteSet)
    requires SetOk(above) && SetOk(mine) && forall f :: SetFind(above, f) == Ancestor(a, e, f)
    requires EmitsOwn(p, q, e, r.face, Add(r.cost))
    requires x.routes == [r] && mine == (if r.capture then [] else above) && AddsUpTo(q, q', x, e, mine, |mine|)
    requires Pushes(q', q'', a, e, add, rem)
    requires forall f :: SetFind(add, f) == if !r.childInherit then None else if f == r.face then Some(r)
                                            else If(!r.capture, Ancestor(a, e, f))
    requires forall f :: SetFind(rem, f) == If(r.capture, Ancestor(a, e, f))
    ensures EmitsNewEntry(p, q'', a, e, r)
  {
    assert mine[..|mine|] == mine;
    forall n, f: Face ensures At(q'', n, f) == Then(At(p, n, f), EmitNewEntry(a, e, r, n, f)) {
      assert HasFace(x.routes, f) <==> f == x.routes[0].face;
    }
  }

  ghost predicate EmitsNewRoute(p: Lists, q: Lists, a: PlainRib, e: Name, nd: Node, r: Route, captureOn: bool) {
    forall n, f :: At(q, n, f) == Then(At(p, n, f), EmitNewRoute(a, e, nd, r, captureOn, n, f))
  }

  lemma {:induction false} NewRouteParts(p: Lists, q: Lists, q': Lists, q'': Lists, a: PlainRib, e: Name, x: Entry,
      r: Route, captureOn: bool, rem: RouteSet, add: RouteSet)
    requires forall f :: SetFind(rem, f) == If(captureOn, Ancestor(a, e, f))
    requires RemovesUpTo(p, q, Bare(x), e, rem, |rem|)
    requires var prev := Cheapest(x.routes, r.face, true);
      add == if r.childInherit && (prev.None? || r.cost <= prev.value.cost) then [r] else []
    requires Pushes(q, q', a, e, add, rem)
    requires var lowest := Cheapest(x.routes, r.face, false);
      if lowest.None? || r.cost <= lowest.value.cost then EmitsOwn(q', q'', e, r.face, Add(r.cost)) else q'' == q'
    ensures EmitsNewRoute(p, q'', a, e, NodeOf(x), r, captureOn)
  {
    assert rem[..|rem|] == rem;
    var prev := Cheapest(x.routes, r.face, true);
    forall n, f: Face ensures At(q'', n, f) == Then(At(p, n, f), EmitNewRoute(a, e, NodeOf(x), r, captureOn, n, f)) {
      assert SetFind(add, f) == If(f == r.face && r.childInherit && (prev.None? || r.cost <= prev.value.cost), Some(r));
      assert SetFind(rem, f).Some? <==> captureOn && Ancestor(a, e, f).Some?;
      NewRouteAt(At(p, n, f), At(q, n, f), At(q', n, f), At(q'', n, f), a, e, x, r, captureOn, n, f);
    }
  }

  /** The three parts at one name and face. */
  lemma {:induction false} NewRouteAt(v0: Effect, v1: Effect, v2: Effect, v3: Effect, a: PlainRib, e: Name, x: Entry,
      r: Route, captureOn: bool, n: Name, f: Face)
    requires var lost := captureOn && Ancestor(a, e, f).Some?;
      var prev := Cheapest(x.routes, r.face, true);
      var add := If(f == r.face && r.childInherit && (prev.None? || r.cost <= prev.value.cost), Some(r));
      && v1 == Then(v0, When(n == e && lost && f in Faces(x.inherited), DROP_INHERITED))
      && v2 == Then(v1, Pushed(a, e, add, lost, n, f))
    requires var lowest := Cheapest(x.routes, r.face, false);
      v3 == Then(v2, When(n == e && f == r.face && (lowest.None? || r.cost <= lowest.value.cost), AddOwn(r.cost)))
    ensures v3 == Then(v0, EmitNewRoute(a, e, NodeOf(x), r, captureOn, n, f))
  {
  }

  ghost predicate EmitsInherit(p: Lists, q: Lists, a: PlainRib, e: Name, nd: Node, r: Route, old_: Route) {
    forall n, f :: At(q, n, f) == Then(At(p, n, f), UpdatedInherit(a, e, nd, r, old_, n, f))
  }

  ghost predicate EmitsCapture(p: Lists, q: Lists, a: PlainRib, e: Name, nd: Node, r: Route, old_: Route) {
    forall n, f :: At(q, n, f) == Then(At(p, n, f), UpdatedCapture(a, e, nd, r, old_, n, f))
  }

  ghost predicate EmitsUpdatedRoute(p: Lists, q: Lists, a: PlainRib, e: Name, nd: Node, r: Route, old_: Route)
    requires UpdatedRouteIsDefined(nd, r, old_)
  {
    forall n, f :: At(q, n, f) == Then(At(p, n, f), EmitUpdatedRoute(a, e, nd, r, old_, n, f))
  }

  lemma {:induction false} InheritParts(p: Lists, q: Lists, a: PlainRib, e: Name, x: Entry, r: Route, old_: Route,
      add: RouteSet)
    requires Pushes(p, q, a, e, add, if old_.childInherit && !r.childInherit then [r] else [])
    requires var prev := Cheapest(x.routes, r.face, true);
      var above := Ancestor(a, e, r.face);
      add == if !old_.childInherit && r.childInherit && (prev.None? || r.cost <= prev.value.cost) then [r]
             else if old_.childInherit && !r.childInherit then
               (if prev.Some? then [prev.value] else if above.Some? then [above.value] else [])
             else []
    ensures EmitsInherit(p, q, a, e, NodeOf(x), r, old_)
  {
    forall n, f: Face ensures At(q, n, f) == Then(At(p, n, f), UpdatedInherit(a, e, NodeOf(x), r, old_, n, f)) {
      assert forall y: Route :: SetFind([y], f) == If(f == y.face, Some(y));
      AboveFace(a, e, |e|, r.face);
    }
  }

  lemma {:induction false} AboveFace(a: PlainRib, n: Name, k: nat, f: Face)
    requires k <= |n|
    ensures Above(a, n, k, f).Some? ==> Above(a, n, k, f).value.face == f
  {
    if k > 0 {
      AboveFace(a, n, k - 1, f);
    }
  }

  ghost predicate EmitsCost(p: Lists, q: Lists, e: Name, nd: Node, r: Route, old_: Route)
    requires UpdatedRouteIsDefined(nd, r, old_)
  {
    forall n, f :: At(q, n, f) == Then(At(p, n, f), UpdatedCost(e, nd, r, old_, n, f))
  }

  lemma {:induction false} UpdatedParts(p: Lists, q: Lists, q': Lists, q'': Lists, a: PlainRib, e: Name, nd: Node,
      r: Route, old_: Route)
    requires UpdatedRouteIsDefined(nd, r, old_) && !(SameFlags(r, old_) && r.cost == old_.cost)
    requires EmitsCost(p, q, e, nd, r, old_)
    requires if OnlyCostPassedDown(nd, r, old_) then Pushes(q, q'', a, e, [r], [])
             else EmitsInherit(q, q', a, e, nd, r, old_) && EmitsCapture(q', q'', a, e, nd, r, old_)
    ensures EmitsUpdatedRoute(p, q'', a, e, nd, r, old_)
  {
    forall n, f: Face ensures At(q'', n, f) == Then(At(p, n, f), EmitUpdatedRoute(a, e, nd, r, old_, n, f)) {
      assert SetFind([r], f) == If(f == r.face, Some(r));
    }
  }

  lemma {:induction false} CaptureOnParts(p: Lists, q: Lists, q': Lists, a: PlainRib, e: Name, x: Entry, r: Route,
      old_: Route, above: RouteSet)
    requires forall f :: SetFind(above, f) == Ancestor(a, e, f)
    requires !old_.capture && r.capture
    requires RemovesUpTo(p, q, Bare(x), e, above, |above|) && Pushes(q, q', a, e, [], above)
    ensures EmitsCapture(p, q', a, e, NodeOf(x), r, old_)
  {
    assert above[..|above|] == above;
  }

  lemma {:induction false} CaptureOffParts(p: Lists, q: Lists, q': Lists, a: PlainRib, e: Name, x: Entry, r: Route,
      old_: Route, above: RouteSet)
    requires forall f :: SetFind(above, f) == Ancestor(a, e, f)
    requires old_.capture && !r.capture
    requires AddsUpTo(p, q, x, e, above, |above|) && Pushes(q, q', a, e, above, [])
    ensures EmitsCapture(p, q', a, e, NodeOf(x), r, old_)
  {
    assert above[..|above|] == above;
  }

  ghost predicate EmitsErasedRoute(p: Lists, q: Lists, a: PlainRib, e: Name, nd: Node, r: Route, captureOff: bool) {
    forall n, f :: At(q, n, f) == Then(At(p, n, f), EmitErasedRoute(a, e, nd, r, captureOff, n, f))
  }

  ghost predicate EmitsUnblocked(p: Lists, q: Lists, e: Name, x: Entry, f0: Face, above: Option<Route>) {
    forall n, f :: At(q, n, f) == Then(At(p, n, f),
      if n == e && f == f0 && x.nCapture == 0 && |x.routes| != 0 && above.Some?
      then AddInherited(above.value.cost) else NOTHING)
  }

  /** The four parts at one name and face. */
  lemma {:induction false} ErasedAt(v0: Effect, v1: Effect, v2: Effect, v3: Effect, v4: Effect, a: PlainRib, e: Name,
      x: Entry, r: Route, captureOff: bool, n: Name, f: Face)
    requires v1 == Then(v0, When(n == e && f == r.face, DROP_OWN))
    requires var back := If(r.capture && captureOff && |x.routes| != 0, Ancestor(a, e, f));
      var add := if r.capture then back else If(r.childInherit && x.nCapture == 0, Ancestor(a, e, f));
      && v2 == Then(v1, if n == e && back.Some? && !HasFace(x.routes, f)
                        then AddInherited(back.value.cost) else NOTHING)
      && v3 == Then(v2, Pushed(a, e, add, r.childInherit && f == r.face, n, f))
    requires var above := Ancestor(a, e, f);
      v4 == Then(v3, if n == e && f == r.face && x.nCapture == 0 && |x.routes| != 0 && above.Some?
                     then AddInherited(above.value.cost) else NOTHING)
    ensures v4 == Then(v0, EmitErasedRoute(a, e, NodeOf(x), r, captureOff, n, f))
  {
  }

  lemma {:induction false} ErasedRouteParts(p: Lists, q1: Lists, q2: Lists, q3: Lists, q4: Lists, a: PlainRib,
      e: Name, x: Entry, r: Route, captureOff: bool, above: RouteSet, mine: RouteSet, add: RouteSet, rem: RouteSet)
    requires forall f :: SetFind(above, f) == Ancestor(a, e, f)
    requires EmitsOwn(p, q1, e, r.face, Remove)
    requires mine == (if r.capture && captureOff && |x.routes| != 0 then above else [])
    requires AddsUpTo(q1, q2, x, e, mine, |mine|)
    requires add == (if r.capture then mine else if r.childInherit && x.nCapture == 0 then above else [])
    requires rem == (if r.childInherit then [r] else [])
    requires Pushes(q2, q3, a, e, add, rem)
    requires EmitsUnblocked(q3, q4, e, x, r.face, Ancestor(a, e, r.face))
    ensures EmitsErasedRoute(p, q4, a, e, NodeOf(x), r, captureOff)
  {
    assert mine[..|mine|] == mine;
    forall n, f: Face
      ensures At(q4, n, f) == Then(At(p, n, f), EmitErasedRoute(a, e, NodeOf(x), r, captureOff, n, f))
    {
      var y := Ancestor(a, e, f);
      assert SetFind(mine, f) == If(r.capture && captureOff && |x.routes| != 0, y);
      assert SetFind(add, f) == if r.capture then SetFind(mine, f) else If(r.childInherit && x.nCapture == 0, y);
      assert SetFind(rem, f).Some? == (r.childInherit && f == r.face);
      ErasedAt(At(p, n, f), At(q1, n, f), At(q2, n, f), At(q3, n, f), At(q4, n, f), a, e, x, r, captureOff, n, f);
    }
  }

  /** The lists hold exactly what `RibSpec` says the update emits. */
  ghost predicate Computed(q: Lists, a: PlainRib, u: RibUpdate)
    requires IsDefined(a, u)
  {
    forall n, f :: At(q, n, f) == Emitted(a, u, n, f)
  }

  ghost predicate EmitsErasedEntry(p: Lists, q: Lists, e: Name, nd: Node) {
    forall n, f :: At(q, n, f) == Then(At(p, n, f), EmitErasedEntry(e, nd, n, f))
  }

  ghost predicate ComputedUnregister(q: Lists, a: PlainRib, e: Name, r: Route) {
    forall n, f :: At(q, n, f) == EmitUnregister(a, e, r, n, f)
  }

  lemma {:induction false} UnregisterParts(p: Lists, q1: Lists, q2: Lists, q3: Lists, a: PlainRib, e: Name, r: Route,
      temp: Node)
    requires Fresh(p) && e in a && IndexOf(a[e].routes, r) < |a[e].routes|
    requires temp == EraseAt(a[e], IndexOf(a[e].routes, r))
    requires EmitsErasedRoute(p, q1, a, e, temp, a[e].routes[IndexOf(a[e].routes, r)],
                              HasCapture(a[e]) && !HasCapture(temp))
    requires var next := SecondCheapest(a[e].routes, r.face);
      if next.Some? then EmitsNewRoute(q1, q2, a, e, temp, next.value, false) else q2 == q1
    requires if |a[e].routes| == 1 then EmitsErasedEntry(q2, q3, e, a[e]) else q3 == q2
    ensures ComputedUnregister(q3, a, e, r)
  {
  }

  ghost predicate Fresh(q: Lists) { forall n, f :: At(q, n, f) == NOTHING }

  /** `t` is `s` with `u` at the position of its key. */
  ghost predicate IsMerged(s: seq<FibUpdate>, i: nat, u: FibUpdate, t: seq<FibUpdate>) {
    && i <= |s| && t == (if i < |s| then s[i := u] else s + [u])
    && (i < |s| ==> SameKey(s[i], u.name, u.face))
    && forall j | 0 <= j < i :: !SameKey(s[j], u.name, u.face)
  }

  lemma {:induction false} MergeKeys(s: seq<FibUpdate>, i: nat, u: FibUpdate, t: seq<FibUpdate>)
    requires UniqueKeys(s) && IsMerged(s, i, u, t)
    ensures UniqueKeys(t) && u in t && forall x | x in t :: x in s || x == u
  {
    assert t[i] == u;
  }

  lemma {:induction false} MergeOthers(s: seq<FibUpdate>, i: nat, u: FibUpdate, t: seq<FibUpdate>, x: FibUpdate)
    requires IsMerged(s, i, u, t) && !SameKey(u, x.name, x.face)
    ensures x in s <==> x in t
  {
    if x in s {
      var j :| 0 <= j < |s| && s[j] == x;
      assert t[j] == x;
    }
  }

  lemma {:induction false} MergeFacts(s: seq<FibUpdate>, i: nat, u: FibUpdate, t: seq<FibUpdate>)
    requires UniqueKeys(s) && IsMerged(s, i, u, t)
    ensures UniqueKeys(t) && u in t && forall x | x in t :: x in s || x == u
    ensures forall n, f :: Listed(t, n, f) == if SameKey(u, n, f) then Some(ActOf(u)) else Listed(s, n, f)
  {
    MergeKeys(s, i, u, t);
    ListedAt(t, u);
    forall n, f: Face | !SameKey(u, n, f) ensures Listed(t, n, f) == Listed(s, n, f) {
      forall x: FibUpdate | SameKey(x, n, f) ensures x in s <==> x in t {
        MergeOthers(s, i, u, t, x);
      }
      ListedSame(s, t, n, f);
    }
  }

  class FibUpdater {
    var batchFaceId: Face
    var updatesForBatchFaceId: seq<FibUpdate>
    var updatesForNonBatchFaceId: seq<FibUpdate>
    var inheritedRoutes: seq<RibUpdate>

    constructor ()
      ensures Valid() && inheritedRoutes == []
    {
      batchFaceId := 0;
      updatesForBatchFaceId, updatesForNonBatchFaceId, inheritedRoutes := [], [], [];
    }

    ghost predicate Valid()
      reads this
    {
      ListsOk(View())
    }

    function View(): Lists
      reads this
    {
      Lists(batchFaceId, updatesForBatchFaceId, updatesForNonBatchFaceId, inheritedRoutes)
    }

    static method Position(s: seq<FibUpdate>, n: Name, f: Face) returns (i: nat)
      ensures i <= |s|
      ensures i < |s| ==> SameKey(s[i], n, f)
      ensures i == |s| ==> forall j | 0 <= j < |s| :: !SameKey(s[j], n, f)
    {
      i := 0;
      while i < |s|
        invariant i <= |s| && forall j | 0 <= j < i :: !SameKey(s[j], n, f)
      {
        if SameKey(s[i], n, f) {
          return;
        }
        i := i + 1;
      }
    }

    /** Adds an update to a list, or replaces the one for the same name and face. */
    static method Merge(s: seq<FibUpdate>, u: FibUpdate) returns (t: seq<FibUpdate>)
      requires UniqueKeys(s)
      ensures UniqueKeys(t)
      ensures u in t && forall x | x in t :: x in s || x == u
      ensures forall n, f :: Listed(t, n, f) == if SameKey(u, n, f) then Some(ActOf(u)) else Listed(s, n, f)
    {
      var i := Position(s, u.name, u.face);
      t := if i < |s| then s[i := u] else s + [u];
      MergeFacts(s, i, u, t);
    }

    method AddFibUpdate(u: FibUpdate)
      requires Valid() && (u.action == REMOVE_NEXTHOP ==> u.cost == 0)
      modifies `updatesForBatchFaceId, `updatesForNonBatchFaceId
      ensures Valid()
      ensures forall n, f ::
        At(View(), n, f) == Then(At(old(View()), n, f), When(SameKey(u, n, f), Effect(Some(ActOf(u)), None)))
    {
      if u.face == batchFaceId {
        updatesForBatchFaceId := Merge(updatesForBatchFaceId, u);
      } else {
        updatesForNonBatchFaceId := Merge(updatesForNonBatchFaceId, u);
      }
    }

    method AddInheritedRoute(n: Name, r: Route)
      requires Valid()
      modifies `inheritedRoutes
      ensures Valid()
      ensures forall m, f ::
        At(View(), m, f) == Then(At(old(View()), m, f), When(m == n && f == r.face, Effect(None, Some(true))))
      ensures inheritedRoutes == old(inheritedRoutes) + [RibUpdate(Register, n, r)]
    {
      inheritedRoutes := inheritedRoutes + [RibUpdate(Register, n, r)];
      assert inheritedRoutes[..|inheritedRoutes| - 1] == old(inheritedRoutes);
    }

    method RemoveInheritedRoute(n: Name, r: Route)
      requires Valid()
      modifies `inheritedRoutes
      ensures Valid()
      ensures forall m, f ::
        At(View(), m, f) == Then(At(old(View()), m, f), When(m == n && f == r.face, Effect(None, Some(false))))
      ensures inheritedRoutes == old(inheritedRoutes) + [RibUpdate(Unregister, n, r)]
    {
      inheritedRoutes := inheritedRoutes + [RibUpdate(Unregister, n, r)];
      assert inheritedRoutes[..|inheritedRoutes| - 1] == old(inheritedRoutes);
    }

    // ---- Traversal ----

    method RemoveIfInherited(x: Entry, c: Name, r: Route)
      requires Valid()
      modifies this
      ensures Valid() && batchFaceId == old(batchFaceId)
      ensures forall n, f :: At(View(), n, f) == Then(At(old(View()), n, f), RemovedOne(x, c, r, n, f))
      ensures inheritedRoutes ==
              old(inheritedRoutes) + if r.face in Faces(x.inherited) then [RibUpdate(Unregister, c, r)] else []
    {
      if r.face in Faces(x.inherited) {
        RemoveInheritedRoute(c, r);
        AddFibUpdate(CreateRemoveUpdate(c, r.face));
      }
    }

    method AddUnlessOwn(x: Entry, c: Name, r: Route)
      requires Valid()
      modifies this
      ensures Valid() && batchFaceId == old(batchFaceId)
      ensures forall n, f :: At(View(), n, f) == Then(At(old(View()), n, f), AddedOne(x, c, r, n, f))
      ensures inheritedRoutes ==
              old(inheritedRoutes) + if HasFace(x.routes, r.face) then [] else [RibUpdate(Register, c, r)]
    {
      if !HasFace(x.routes, r.face) {
        AddInheritedRoute(c, r);
        AddFibUpdate(CreateAddUpdate(c, r.face, r.cost));
      }
    }

    /** One iteration of the first loop of `traverseSubTree`: a route on a face the entry passes down
        itself is erased from the set; otherwise the entry removes its inherited route on that face. */
    method RemoveNext(x: Entry, c: Name, routes: RouteSet, ghost j: nat, rest: RouteSet, i: nat, ghost p: Lists)
      returns (rest': RouteSet, i': nat)
      requires Valid() && SetOk(routes) && j < |routes| && i == |Unclaimed(routes[..j], x.routes)|
      requires rest == Partly(routes, x.routes, j) && RemovesUpTo(p, View(), x, c, routes, j)
      modifies this
      ensures Valid() && batchFaceId == old(batchFaceId)
      ensures i' == |Unclaimed(routes[..j + 1], x.routes)| && rest' == Partly(routes, x.routes, j + 1)
      ensures RemovesUpTo(p, View(), x, c, routes, j + 1)
    {
      PartlyStep(routes, x.routes, j);
      if InheritsOn(x.routes, rest[i].face) {
        rest', i' := rest[..i] + rest[i + 1..], i;
      } else {
        rest', i' := rest, i + 1;
        RemoveIfInherited(x, c, rest[i]);
      }
      RemovesOneMore(p, old(View()), View(), x, c, routes, j);
    }

    /** First loop of `traverseSubTree`: removes inherited routes from the entry at `c`; routes that
        the entry itself passes down are erased from the set. */
    method RemoveHere(x: Entry, c: Name, routes: RouteSet) returns (rest: RouteSet)
      requires Valid() && SetOk(routes)
      modifies this
      ensures Valid() && batchFaceId == old(batchFaceId)
      ensures rest == Unclaimed(routes, x.routes)
      ensures RemovesUpTo(old(View()), View(), x, c, routes, |routes|)
    {
      rest := routes;
      var i := 0;
      ghost var j := 0;
      PartlyEnds(routes, x.routes, 0);
      while i < |rest|
        invariant Valid() && batchFaceId == old(batchFaceId)
        invariant 0 <= j <= |routes| && i == |Unclaimed(routes[..j], x.routes)|
        invariant rest == Partly(routes, x.routes, j)
        invariant RemovesUpTo(old(View()), View(), x, c, routes, j)
        decreases |rest| - i
      {
        rest, i := RemoveNext(x, c, routes, j, rest, i, old(View()));
        j := j + 1;
      }
      PartlyEnds(routes, x.routes, j);
    }

    /** One iteration of the second loop of `traverseSubTree`: a route on a face the entry passes down
        itself is erased from the set; otherwise the entry adds the inherited route unless it has its own. */
    method AddNext(x: Entry, c: Name, routes: RouteSet, ghost j: nat, rest: RouteSet, i: nat, ghost p: Lists)
      returns (rest': RouteSet, i': nat)
      requires Valid() && SetOk(routes) && j < |routes| && i == |Unclaimed(routes[..j], x.routes)|
      requires rest == Partly(routes, x.routes, j) && AddsUpTo(p, View(), x, c, routes, j)
      modifies this
      ensures Valid() && batchFaceId == old(batchFaceId)
      ensures i' == |Unclaimed(routes[..j + 1], x.routes)| && rest' == Partly(routes, x.routes, j + 1)
      ensures AddsUpTo(p, View(), x, c, routes, j + 1)
    {
      PartlyStep(routes, x.routes, j);
      if InheritsOn(x.routes, rest[i].face) {
        rest', i' := rest[..i] + rest[i + 1..], i;
      } else {
        rest', i' := rest, i + 1;
        AddUnlessOwn(x, c, rest[i]);
      }
      AddsOneMore(p, old(View()), View(), x, c, routes, j);
    }

    /** Second loop of `traverseSubTree`: adds inherited routes to the entry at `c`, with the same erasing. */
    method AddHere(x: Entry, c: Name, routes: RouteSet) returns (rest: RouteSet)
      requires Valid() && SetOk(routes)
      modifies this
      ensures Valid() && batchFaceId == old(batchFaceId)
      ensures rest == Unclaimed(routes, x.routes)
      ensures AddsUpTo(old(View()), View(), x, c, routes, |routes|)
    {
      rest := routes;
      var i := 0;
      ghost var j := 0;
      PartlyEnds(routes, x.routes, 0);
      while i < |rest|
        invariant Valid() && batchFaceId == old(batchFaceId)
        invariant 0 <= j <= |routes| && i == |Unclaimed(routes[..j], x.routes)|
        invariant rest == Partly(routes, x.routes, j)
        invariant AddsUpTo(old(View()), View(), x, c, routes, j)
        decreases |rest| - i
      {
        rest, i := AddNext(x, c, routes, j, rest, i, old(View()));
        j := j + 1;
      }
      PartlyEnds(routes, x.routes, j);
    }

    method TraverseSubTree(t: Table, ghost a: PlainRib, c: Name, routesToAdd: RouteSet, routesToRemove: RouteSet)
      requires Valid() && TreeOk(t) && a == Plain(t) && c in t && SetOk(routesToAdd) && SetOk(routesToRemove)
      modifies this
      ensures Valid() && batchFaceId == old(batchFaceId)
      ensures Traverses(old(View()), View(), a, c, routesToAdd, routesToRemove)
      decreases Subtree(t, c), 0
    {
      var x := t[c];
      if x.nCapture > 0 {
        CapturedTraversal(View(), a, x, c, routesToAdd, routesToRemove);
        return;
      }
      var remRest := RemoveHere(x, c, routesToRemove);
      ghost var q := View();
      var addRest := AddHere(x, c, routesToAdd);
      ghost var q' := View();
      UnclaimedOk(routesToRemove, x.routes);
      UnclaimedOk(routesToAdd, x.routes);
      ChildrenAreKids(t, c);
      assert c in Subtree(t, c) && c !in StrictSubtree(t, c);
      ModifyChildrensInheritedRoutes(t, a, c, x.children, addRest, remRest);
      TraversalParts(old(View()), q, q', View(), a, x, c, routesToAdd, routesToRemove);
    }

    method ModifyChildrensInheritedRoutes(t: Table, ghost a: PlainRib, ghost e: Name, children: seq<Name>,
                                          routesToAdd: RouteSet, routesToRemove: RouteSet)
      requires Valid() && TreeOk(t) && a == Plain(t) && AreKids(a, e, children)
      requires SetOk(routesToAdd) && SetOk(routesToRemove)
      modifies this
      ensures Valid() && batchFaceId == old(batchFaceId)
      ensures Pushes(old(View()), View(), a, e, routesToAdd, routesToRemove)
      decreases StrictSubtree(t, e), 1
    {
      for i := 0 to |children|
        invariant Valid() && batchFaceId == old(batchFaceId)
        invariant PushesUpTo(old(View()), View(), a, e, children, i, routesToAdd, routesToRemove)
      {
        ghost var q := View();
        assert children[i] in children;
        assert Subtree(t, children[i]) <= StrictSubtree(t, e);
        TraverseSubTree(t, a, children[i], routesToAdd, routesToRemove);
        PushesOneMore(old(View()), q, View(), a, e, children, i, routesToAdd, routesToRemove);
      }
      PushesAll(old(View()), View(), a, e, children, routesToAdd, routesToRemove);
    }

    // ---- Updates for one RIB update ----

    /** Both overloads of `addInheritedRoutes`: routes on a face of `x` are skipped. */
    method AddInheritedRoutes(x: Entry, e: Name, routesToAdd: RouteSet)
      requires Valid() && SetOk(routesToAdd)
      modifies this
      ensures Valid() && batchFaceId == old(batchFaceId)
      ensures AddsUpTo(old(View()), View(), x, e, routesToAdd, |routesToAdd|)
    {
      for i := 0 to |routesToAdd|
        invariant Valid() && batchFaceId == old(batchFaceId)
        invariant AddsUpTo(old(View()), View(), x, e, routesToAdd, i)
      {
        ghost var q := View();
        AddUnlessOwn(x, e, routesToAdd[i]);
        AddsOneMoreSelf(old(View()), q, View(), x, e, routesToAdd, i);
      }
    }

    method RemoveInheritedRoutes(x: Entry, e: Name, routesToRemove: RouteSet)
      requires Valid() && SetOk(routesToRemove)
      modifies this
      ensures Valid() && batchFaceId == old(batchFaceId)
      ensures RemovesUpTo(old(View()), View(), Bare(x), e, routesToRemove, |routesToRemove|)
    {
      for i := 0 to |routesToRemove|
        invariant Valid() && batchFaceId == old(batchFaceId)
        invariant RemovesUpTo(old(View()), View(), Bare(x), e, routesToRemove, i)
      {
        ghost var q := View();
        RemoveIfInherited(x, e, routesToRemove[i]);
        RemovesOneMore(old(View()), q, View(), Bare(x), e, routesToRemove, i);
      }
    }

    method CreateFibUpdatesForNewRibEntry(t: Table, ghost a: PlainRib, e: Name, r: Route, children: seq<Name>)
      requires Valid() && TreeOk(t) && a == Plain(t) && e !in t && AreKids(a, e, children)
      modifies this
      ensures Valid() && batchFaceId == old(batchFaceId)
      ensures EmitsNewEntry(old(View()), View(), a, e, r)
    {
      AddFibUpdate(CreateAddUpdate(e, r.face, r.cost));
      ghost var q := View();
      var parent := FindParent(t, e);
      var above := GetAncestorRoutes(t, e, parent);
      var x := Entry([r], 0, [], None, []);
      var mine := if r.capture then [] else above;
      if !r.capture {
        AddInheritedRoutes(x, e, above);
      }
      ghost var q' := View();
      var add, rem := [], [];
      SetReplaceFinds(above, r);
      if r.childInherit {
        add := if r.capture then SetInsert([], r) else SetReplace(above, r);
      }
      if r.capture {
        rem := above;
      }
      if r.childInherit || r.capture {
        ModifyChildrensInheritedRoutes(t, a, e, children, add, rem);
      }
      NewEntryParts(old(View()), q, q', View(), a, e, r, x, above, mine, add, rem);
    }

    /** `x` is the entry at `e`, or a copy of it without some route. */
    method CreateFibUpdatesForNewRoute(t: Table, ghost a: PlainRib, e: Name, x: Entry, r: Route,
        captureWasTurnedOn: bool)
      requires Valid() && TreeOk(t) && a == Plain(t) && e in t && x.children == t[e].children && x.parent == t[e].parent
      modifies this
      ensures Valid() && batchFaceId == old(batchFaceId)
      ensures EmitsNewRoute(old(View()), View(), a, e, NodeOf(x), r, captureWasTurnedOn)
    {
      ChildrenAreKids(t, e);
      var prevRoute := LowestCostRoute(x.routes, r.face, true);
      var routesToAdd := [];
      if r.childInherit {
        if prevRoute.None? || r.cost <= prevRoute.value.cost {
          routesToAdd := [r];
        }
      }
      var routesToRemove := [];
      if captureWasTurnedOn {
        routesToRemove := GetAncestorRoutes(t, e, x.parent);
        RemoveInheritedRoutes(x, e, routesToRemove);
      }
      ghost var q := View();
      ModifyChildrensInheritedRoutes(t, a, e, x.children, routesToAdd, routesToRemove);
      ghost var q' := View();
      var other := LowestCostRoute(x.routes, r.face, false);
      if other.None? || r.cost <= other.value.cost {
        AddFibUpdate(CreateAddUpdate(e, r.face, r.cost));
      }
      NewRouteParts(old(View()), q, q', View(), a, e, x, r, captureWasTurnedOn, routesToRemove, routesToAdd);
    }

    /** Cost part of `createFibUpdatesForUpdatedRoute`. */
    method UpdateCost(e: Name, x: Entry, r: Route, old_: Route, prevRoute: Option<Route>)
      requires Valid() && UpdatedRouteIsDefined(NodeOf(x), r, old_) && prevRoute == Cheapest(x.routes, r.face, true)
      modifies this
      ensures Valid() && batchFaceId == old(batchFaceId)
      ensures EmitsCost(old(View()), View(), e, NodeOf(x), r, old_)
    {
      if r.cost != old_.cost {
        var lowest := LowestCostRoute(x.routes, r.face, false);
        if r.cost <= lowest.value.cost {
          AddFibUpdate(CreateAddUpdate(e, r.face, r.cost));
        } else if old_.cost < lowest.value.cost {
          AddFibUpdate(CreateAddUpdate(e, prevRoute.value.face, prevRoute.value.cost));
        }
      }
    }

    /** Child-inherit part of `createFibUpdatesForUpdatedRoute`. */
    method UpdateChildInherit(t: Table, ghost a: PlainRib, e: Name, x: Entry, r: Route, old_: Route,
        prevRoute: Option<Route>)
      requires Valid() && TreeOk(t) && a == Plain(t) && e in t && x.children == t[e].children && x.parent == t[e].parent
      requires prevRoute == Cheapest(x.routes, r.face, true)
      modifies this
      ensures Valid() && batchFaceId == old(batchFaceId)
      ensures EmitsInherit(old(View()), View(), a, e, NodeOf(x), r, old_)
    {
      ChildrenAreKids(t, e);
      var routesToAdd := [];
      if !old_.childInherit && r.childInherit {
        if prevRoute.None? || r.cost <= prevRoute.value.cost {
          routesToAdd := [r];
          ModifyChildrensInheritedRoutes(t, a, e, x.children, routesToAdd, []);
        }
        InheritParts(old(View()), View(), a, e, x, r, old_, routesToAdd);
      } else if old_.childInherit && !r.childInherit {
        if prevRoute.Some? {
          routesToAdd := [prevRoute.value];
        } else {
          var ancestorRoutes := GetAncestorRoutes(t, e, x.parent);
          var it := SetFind(ancestorRoutes, r.face);
          if it.Some? {
            routesToAdd := [it.value];
          }
        }
        ModifyChildrensInheritedRoutes(t, a, e, x.children, routesToAdd, [r]);
        InheritParts(old(View()), View(), a, e, x, r, old_, routesToAdd);
      }
    }

    /** Capture part of `createFibUpdatesForUpdatedRoute`. */
    method UpdateCapture(t: Table, ghost a: PlainRib, e: Name, x: Entry, r: Route, old_: Route)
      requires Valid() && TreeOk(t) && a == Plain(t) && e in t && x.children == t[e].children && x.parent == t[e].parent
      modifies this
      ensures Valid() && batchFaceId == old(batchFaceId)
      ensures EmitsCapture(old(View()), View(), a, e, NodeOf(x), r, old_)
    {
      ChildrenAreKids(t, e);
      if !old_.capture && r.capture {
        var ancestorRoutes := GetAncestorRoutes(t, e, x.parent);
        RemoveInheritedRoutes(x, e, ancestorRoutes);
        ghost var q := View();
        ModifyChildrensInheritedRoutes(t, a, e, x.children, [], ancestorRoutes);
        CaptureOnParts(old(View()), q, View(), a, e, x, r, old_, ancestorRoutes);
      } else if old_.capture && !r.capture {
        var ancestorRoutes := GetAncestorRoutes(t, e, x.parent);
        AddInheritedRoutes(x, e, ancestorRoutes);
        ghost var q := View();
        ModifyChildrensInheritedRoutes(t, a, e, x.children, ancestorRoutes, []);
        CaptureOffParts(old(View()), q, View(), a, e, x, r, old_, ancestorRoutes);
      }
    }

    /** `x` is a copy of the entry at `e` in which `r` has already replaced `old_`. */
    method CreateFibUpdatesForUpdatedRoute(t: Table, ghost a: PlainRib, e: Name, x: Entry, r: Route, old_: Route)
      requires Valid() && TreeOk(t) && a == Plain(t) && e in t && x.children == t[e].children && x.parent == t[e].parent
      requires UpdatedRouteIsDefined(NodeOf(x), r, old_)
      modifies this
      ensures Valid() && batchFaceId == old(batchFaceId)
      ensures EmitsUpdatedRoute(old(View()), View(), a, e, NodeOf(x), r, old_)
    {
      var costDidChange := r.cost != old_.cost;
      var prevRoute := LowestCostRoute(x.routes, r.face, true);
      if SameFlags(r, old_) && !costDidChange {
        return;
      }
      UpdateCost(e, x, r, old_, prevRoute);
      ghost var q, q' := View(), View();
      if costDidChange && (prevRoute.None? || r.cost <= prevRoute.value.cost) && SameFlags(r, old_) && r.childInherit {
        ChildrenAreKids(t, e);
        ModifyChildrensInheritedRoutes(t, a, e, x.children, [r], []);
      } else {
        UpdateChildInherit(t, a, e, x, r, old_, prevRoute);
        q' := View();
        UpdateCapture(t, a, e, x, r, old_);
      }
      UpdatedParts(old(View()), q, q', View(), a, e, NodeOf(x), r, old_);
    }

    /** Last part of `createFibUpdatesForErasedRoute`: the erased route may have hidden an ancestor route. */
    method AddUnblocked(e: Name, x: Entry, f0: Face, ancestorRoutes: RouteSet)
      requires Valid()
      modifies this
      ensures Valid() && batchFaceId == old(batchFaceId)
      ensures EmitsUnblocked(old(View()), View(), e, x, f0, SetFind(ancestorRoutes, f0))
    {
      if x.nCapture == 0 && |x.routes| != 0 {
        var it := SetFind(ancestorRoutes, f0);
        if it.Some? {
          AddInheritedRoute(e, it.value);
          AddFibUpdate(CreateAddUpdate(e, it.value.face, it.value.cost));
        }
      }
    }

    /** `x` is a copy of the entry at `e` from which `r` has already been erased. */
    method CreateFibUpdatesForErasedRoute(t: Table, ghost a: PlainRib, e: Name, x: Entry, r: Route,
        captureWasTurnedOff: bool)
      requires Valid() && TreeOk(t) && a == Plain(t) && e in t && x.children == t[e].children && x.parent == t[e].parent
      modifies this
      ensures Valid() && batchFaceId == old(batchFaceId)
      ensures EmitsErasedRoute(old(View()), View(), a, e, NodeOf(x), r, captureWasTurnedOff)
    {
      ChildrenAreKids(t, e);
      AddFibUpdate(CreateRemoveUpdate(e, r.face));
      ghost var q1 := View();
      var ancestorRoutes := GetAncestorRoutes(t, e, x.parent);
      var routesToAdd, routesToRemove := [], [];
      ghost var mine := [];
      if r.childInherit {
        routesToRemove := [r];
      }
      if r.capture {
        if captureWasTurnedOff && |x.routes| != 0 {
          routesToAdd := ancestorRoutes;
          mine := ancestorRoutes;
          AddInheritedRoutes(x, e, routesToAdd);
        }
      } else if r.childInherit && x.nCapture == 0 {
        routesToAdd := ancestorRoutes;
      }
      ghost var q2 := View();
      if r.childInherit || r.capture {
        ModifyChildrensInheritedRoutes(t, a, e, x.children, routesToAdd, routesToRemove);
      }
      ghost var q3 := View();
      AddUnblocked(e, x, r.face, ancestorRoutes);
      ErasedRouteParts(old(View()), q1, q2, q3, View(), a, e, x, r, captureWasTurnedOff,
                       ancestorRoutes, mine, routesToAdd, routesToRemove);
    }

    method CreateFibUpdatesForErasedRibEntry(e: Name, x: Entry)
      requires Valid()
      modifies this
      ensures Valid() && batchFaceId == old(batchFaceId)
      ensures EmitsErasedEntry(old(View()), View(), e, NodeOf(x))
    {
      for i := 0 to |x.inherited|
        invariant Valid() && batchFaceId == old(batchFaceId)
        invariant forall n, f :: At(View(), n, f) ==
                    Then(At(old(View()), n, f), When(n == e && f in Faces(x.inherited[..i]), DROP_OWN))
      {
        assert forall f ::
          f in Faces(x.inherited[..i + 1]) <==> f in Faces(x.inherited[..i]) || f == x.inherited[i].face;
        AddFibUpdate(CreateRemoveUpdate(e, x.inherited[i].face));
      }
      assert x.inherited[..|x.inherited|] == x.inherited;
    }

    method ComputeUpdatesForRegistration(t: Table, names: seq<Name>, ghost a: PlainRib, u: RibUpdate)
      requires Valid() && TreeOk(t) && a == Plain(t) && IsIndex(names, t)
      requires u.action == Register && IsDefined(a, u) && Fresh(View())
      modifies this
      ensures Valid() && batchFaceId == old(batchFaceId)
      ensures Computed(View(), a, u)
    {
      var e, r := u.name, u.route;
      if e in t {
        var x := t[e];
        var i := IndexOf(x.routes, r);
        if i == |x.routes| {
          CreateFibUpdatesForNewRoute(t, a, e, x, r, x.nCapture == 0 && r.capture);
        } else {
          var entryCopy := x.(routes := x.routes[i := r]);
          CreateFibUpdatesForUpdatedRoute(t, a, e, entryCopy, r, x.routes[i]);
        }
      } else {
        var children := FindAdoptees(t, names, e);
        CreateFibUpdatesForNewRibEntry(t, a, e, r, children);
      }
    }

    method ComputeUpdatesForUnregistration(t: Table, ghost a: PlainRib, u: RibUpdate)
      requires Valid() && TreeOk(t) && a == Plain(t) && Fresh(View())
      modifies this
      ensures Valid() && batchFaceId == old(batchFaceId)
      ensures ComputedUnregister(View(), a, u.name, u.route)
    {
      var e, r := u.name, u.route;
      if e in t {
        var x := t[e];
        var i := IndexOf(x.routes, r);
        if i < |x.routes| {
          var temp := Shortened(x, i);
          CreateFibUpdatesForErasedRoute(t, a, e, temp, x.routes[i], x.nCapture > 0 && temp.nCapture == 0);
          ghost var q1 := View();
          var next := SecondCheapest(x.routes, r.face);
          if next.Some? {
            CreateFibUpdatesForNewRoute(t, a, e, temp, next.value, false);
          }
          ghost var q2 := View();
          if |x.routes| == 1 {
            CreateFibUpdatesForErasedRibEntry(e, x);
          }
          UnregisterParts(old(View()), q1, q2, View(), a, e, r, NodeOf(temp));
        }
      }
    }

    /** `computeAndSendFibUpdates` up to the sending: a batch holds one update, and its face is the
        batch face. Earlier results are dropped first. */
    method ComputeUpdates(t: Table, names: seq<Name>, u: RibUpdate)
      requires Valid() && TreeOk(t) && IsIndex(names, t) && IsDefined(Plain(t), u)
      modifies this
      ensures Valid() && batchFaceId == u.route.face
      ensures Computed(View(), Plain(t), u)
      ensures u.action == RemoveFace ==> updatesForBatchFaceId == []
    {
      ghost var a := Plain(t);
      batchFaceId := u.route.face;
      updatesForBatchFaceId, updatesForNonBatchFaceId, inheritedRoutes := [], [], [];
      match u.action {
        case Register =>
          ComputeUpdatesForRegistration(t, names, a, u);
        case Unregister =>
          ComputeUpdatesForUnregistration(t, a, u);
        case RemoveFace =>
          ComputeUpdatesForUnregistration(t, a, u);
          updatesForBatchFaceId := [];
      }
    }
  }
}
