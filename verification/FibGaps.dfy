/** The from-scratch state of a RIB; concrete consistent states, each with an update that leaves one
    name and face wrong; and what becomes of a face with several routes when one is erased. */
module FibGaps {
  import opened Options
  import opened Components
  import opened Names
  import opened RibSpec
  import opened FibTheory
  import opened FibSteps

  // ---- From scratch ----

  ghost function AllFaces(a: PlainRib): set<Face> {
    set n, i | n in a && 0 <= i < |a[n].routes| :: a[n].routes[i].face
  }

  lemma {:induction false} AncestorFaceIsKnown(a: PlainRib, n: Name, k: nat, f: Face)
    requires k <= |n| && Above(a, n, k, f).Some?
    ensures f in AllFaces(a)
  {
    var p := n[..k - 1];
    if p in a && FirstInherited(a[p].routes, f).Some? {
      var i :| 0 <= i < |a[p].routes| && a[p].routes[i].face == f;
    } else {
      AncestorFaceIsKnown(a, n, k - 1, f);
    }
  }

  ghost function ScratchRib(a: PlainRib): PlainRib {
    map n | n in a :: a[n].(inh := set f | f in AllFaces(a) && WantInherited(a, n, f))
  }

  ghost function ScratchFib(a: PlainRib): Fib {
    map n, f | n in a && f in AllFaces(a) && Want(a, n, f).Some? :: (n, f) := Want(a, n, f).value
  }

  /** Every RIB has a consistent state with the same routes. */
  lemma {:induction false} ScratchIsConsistent(a: PlainRib)
    ensures Consistent(ScratchRib(a), ScratchFib(a)) && SameRoutes(a, ScratchRib(a))
  {
    var b := ScratchRib(a);
    forall n, f: Face
      ensures Want(b, n, f) == Want(a, n, f) && WantInherited(b, n, f) == WantInherited(a, n, f)
      ensures Want(a, n, f).Some? || WantInherited(a, n, f) ==> f in AllFaces(a)
    {
      forall j | 0 <= j < |n| ensures AgreeAt(a, b, n[..j]) {}
      AboveLocal(a, b, n, |n|, f);
      if Ancestor(a, n, f).Some? {
        AncestorFaceIsKnown(a, n, |n|, f);
      }
      if n in a && Cheapest(a[n].routes, f, false).Some? {
        var i :| 0 <= i < |a[n].routes| && a[n].routes[i].face == f;
      }
    }
    forall n, f: Face ensures Look(ScratchFib(a), n, f) == Want(b, n, f) {}
  }

  // ---- A chain of three entries ----

  const C := Component(GENERIC_TYPE, [])

  function Single(r: Route): Node { Node([r], if r.capture then 1 else 0, {}) }

  /** Entries at "/", "/C" and "/C/C", one route each. */
  function Chain(r0: Route, r1: Route, r2: Route): PlainRib {
    map[[] := Single(r0), [C] := Single(r1), [C, C] := Single(r2)]
  }

  ghost function ChainState(r0: Route, r1: Route, r2: Route): PlainRib { ScratchRib(Chain(r0, r1, r2)) }

  const PLAIN := Route(3, 0, 0, false, false, 0)
  const INHERIT := Route(1, 0, 10, true, false, 0)
  const CAPTURE := Route(2, 0, 0, false, true, 0)

  lemma {:induction false} ChainOk(r0: Route, r1: Route, r2: Route)
    ensures var s := ChainState(r0, r1, r2);
      Consistent(s, ScratchFib(Chain(r0, r1, r2))) && SameRoutes(s, Chain(r0, r1, r2))
  {
    ScratchIsConsistent(Chain(r0, r1, r2));
  }

  /** Two names below each other, where the upper one passes `r0` down to the lower ones on its face. */
  lemma {:induction false} ChainFacts(r0: Route, r1: Route, r2: Route)
    requires r0.childInherit
    ensures var s := ChainState(r0, r1, r2);
      && Consistent(s, ScratchFib(Chain(r0, r1, r2)))
      && s.Keys == {[], [C], [C, C]}
      && s[[C]].routes == [r1] && s[[C, C]].routes == [r2]
      && (HasCapture(s[[C]]) <==> r1.capture)
      && Ancestor(s, [C], r0.face) == Some(r0)
      && (r2.face != r0.face && !r2.capture ==>
            Reached(s, [C], [C, C], r0.face) && !HasFace(s[[C, C]].routes, r0.face))
      && (!r1.capture && r1.face != r0.face ==> r0.face in s[[C]].inh)
  {
    var a := Chain(r0, r1, r2);
    var s := ScratchRib(a);
    ChainOk(r0, r1, r2);
    assert [C][..0] == [] && [C, C][..1] == [C] && [C, C][..2] == [C, C];
    SingleLookups(r0, r0.face);
    SingleLookups(r1, r0.face);
    SingleLookups(r2, r0.face);
    assert Above(s, [C], 0, r0.face) == None;
    assert Above(s, [C], 1, r0.face) == PassOf(Get(s, []), None, r0.face);
    assert !r1.capture && r1.face != r0.face ==> WantInherited(s, [C], r0.face);
  }

  /** After the update, the FIB or the record at (n, f) is not the from-scratch one. */
  ghost predicate LeavesWrong(s: PlainRib, u: RibUpdate, n: Name, f: Face) {
    IsDefined(s, u) && !RightAt(s, Edit(s, u), Emitted(s, u, n, f), n, f)
  }

  lemma {:induction false} WrongBelow(s: PlainRib, u: RibUpdate, n: Name, f: Face)
    requires u.action != RemoveFace && IsDefined(s, u) && RecordsExact(s)
    requires n != u.name && Reached(s, u.name, n, f) && !HasFace(s[n].routes, f) && !BelowOk(s, u, f)
    ensures LeavesWrong(s, u, n, f)
  {
    PointIsExact(s, u, Edit(s, u), n, f);
  }

  /** Erasing the only route of a capturing entry does not hand the ancestor route to the entry below. */
  lemma {:induction false} ErasedCaptureBreaks()
    ensures var s := ChainState(INHERIT, CAPTURE, PLAIN);
      Consistent(s, ScratchFib(Chain(INHERIT, CAPTURE, PLAIN)))
      && LeavesWrong(s, RibUpdate(Unregister, [C], CAPTURE), [C, C], INHERIT.face)
  {
    var s := ChainState(INHERIT, CAPTURE, PLAIN);
    ChainFacts(INHERIT, CAPTURE, PLAIN);
    assert [CAPTURE][..0] + [CAPTURE][1..] == [];
    SecondExists([CAPTURE], 0);
    WrongBelow(s, RibUpdate(Unregister, [C], CAPTURE), [C, C], INHERIT.face);
  }

  /** A second route on a face the entry already inherits leaves a stale inherited record. */
  lemma {:induction false} InheritedFaceBreaks()
    ensures var s := ChainState(INHERIT, PLAIN, PLAIN);
      Consistent(s, ScratchFib(Chain(INHERIT, PLAIN, PLAIN)))
      && LeavesWrong(s, RibUpdate(Register, [C], PLAIN.(face := INHERIT.face)), [C], INHERIT.face)
  {
    var s := ChainState(INHERIT, PLAIN, PLAIN);
    var u := RibUpdate(Register, [C], PLAIN.(face := INHERIT.face));
    ChainFacts(INHERIT, PLAIN, PLAIN);
    SingleLookups(PLAIN, INHERIT.face);
    PointIsExact(s, u, Edit(s, u), [C], INHERIT.face);
  }

  /** Overwriting a route does not adjust the capture counter, but drops what the entry inherits. */
  lemma {:induction false} ToggledCaptureBreaks()
    ensures var s := ChainState(INHERIT, PLAIN, PLAIN);
      Consistent(s, ScratchFib(Chain(INHERIT, PLAIN, PLAIN)))
      && LeavesWrong(s, RibUpdate(Register, [C], PLAIN.(capture := true)), [C], INHERIT.face)
  {
    var s := ChainState(INHERIT, PLAIN, PLAIN);
    var u := RibUpdate(Register, [C], PLAIN.(capture := true));
    ChainFacts(INHERIT, PLAIN, PLAIN);
    OverwriteIsDefined(s, u, PLAIN);
    PointIsExact(s, u, Edit(s, u), [C], INHERIT.face);
  }

  lemma {:induction false} OverwriteIsDefined(s: PlainRib, u: RibUpdate, x: Route)
    requires u.action == Register && u.name in s && s[u.name].routes == [x]
    ensures IsDefined(s, u)
    ensures IndexOf([x], u.route) == 0 ==> [x][0 := u.route] == [u.route]
  {
    SingleLookups(u.route, u.route.face);
  }

  /** Clearing child-inherit on a capturing entry hands a blocked ancestor route to the entry below. */
  lemma {:induction false} ClearedInheritBreaks()
    ensures var r1 := INHERIT.(capture := true);
      var s := ChainState(INHERIT, r1, PLAIN);
      Consistent(s, ScratchFib(Chain(INHERIT, r1, PLAIN)))
      && LeavesWrong(s, RibUpdate(Register, [C], r1.(childInherit := false)), [C, C], INHERIT.face)
  {
    var r1 := INHERIT.(capture := true);
    var r := r1.(childInherit := false);
    var s, u := ChainState(INHERIT, r1, PLAIN), RibUpdate(Register, [C], r);
    ChainFacts(INHERIT, r1, PLAIN);
    OverwriteIsDefined(s, u, r1);
    SingleLookups(r1, INHERIT.face);
    SingleLookups(r, INHERIT.face);
    WrongBelow(s, u, [C, C], INHERIT.face);
  }

  /** A new cost together with a changed undefined flag bit does not reach the entry below. */
  lemma {:induction false} ChangedFlagBreaks()
    ensures var s := ChainState(INHERIT, INHERIT, PLAIN);
      Consistent(s, ScratchFib(Chain(INHERIT, INHERIT, PLAIN)))
      && LeavesWrong(s, RibUpdate(Register, [C], INHERIT.(cost := 5, otherFlags := 1)), [C, C], INHERIT.face)
  {
    var r := INHERIT.(cost := 5, otherFlags := 1);
    var s, u := ChainState(INHERIT, INHERIT, PLAIN), RibUpdate(Register, [C], r);
    ChainFacts(INHERIT, INHERIT, PLAIN);
    OverwriteIsDefined(s, u, INHERIT);
    SingleLookups(INHERIT, INHERIT.face);
    SingleLookups(r, INHERIT.face);
    WrongBelow(s, u, [C, C], INHERIT.face);
  }

  /** A second, capturing route on an entry that passes down an ancestor's face takes that face from
      the entry below. */
  lemma {:induction false} CaptureTurnedOnBreaks()
    ensures var s := ChainState(INHERIT, INHERIT, PLAIN);
      Consistent(s, ScratchFib(Chain(INHERIT, INHERIT, PLAIN)))
      && LeavesWrong(s, RibUpdate(Register, [C], CAPTURE), [C, C], INHERIT.face)
  {
    var s, u := ChainState(INHERIT, INHERIT, PLAIN), RibUpdate(Register, [C], CAPTURE);
    ChainFacts(INHERIT, INHERIT, PLAIN);
    SingleLookups(INHERIT, INHERIT.face);
    WrongBelow(s, u, [C, C], INHERIT.face);
  }

  /** A consistent state with an overwrite on which the updater dereferences a route that is not there:
      the cheaper of two routes on a face becomes the dearer one, and neither inherits. */
  lemma {:induction false} MissingRouteReached()
    ensures var cheap, dear := Route(1, 0, 1, false, false, 0), Route(1, 1, 5, false, false, 0);
      var a := map[[C] := Node([cheap, dear], 0, {})];
      && Consistent(ScratchRib(a), ScratchFib(a))
      && !IsDefined(ScratchRib(a), RibUpdate(Register, [C], cheap.(cost := 10)))
  {
    var cheap, dear := Route(1, 0, 1, false, false, 0), Route(1, 1, 5, false, false, 0);
    var a := map[[C] := Node([cheap, dear], 0, {})];
    var u := RibUpdate(Register, [C], cheap.(cost := 10));
    ScratchIsConsistent(a);
    var rs := ScratchRib(a)[[C]].routes;
    assert rs == [cheap, dear] && IndexOf(rs, u.route) == 0;
    assert rs[1].cost < u.route.cost && rs[0 := u.route] == [u.route, dear];
    DefinedExact(ScratchRib(a), u);
  }

  // ---- Several routes on one face ----

  /** What an erasure emits for the entry itself when other routes stay on the face. */
  lemma {:induction false} SelfEffect(a: PlainRib, e: Name, i: nat)
    requires e in a && i < |a[e].routes| && HasFace(EraseAt(a[e], i).routes, a[e].routes[i].face)
    ensures var f, temp := a[e].routes[i].face, EraseAt(a[e], i);
      var lowest, next, above := Cheapest(temp.routes, f, false), SecondCheapest(a[e].routes, f), Ancestor(a, e, f);
      && lowest.Some? && next.Some?
      && ErasedParts(a, e, i, e, f) ==
        Then(Then(DROP_OWN, if !HasCapture(temp) && above.Some? then AddInherited(above.value.cost) else NOTHING),
             if next.value.cost <= lowest.value.cost then AddOwn(next.value.cost) else NOTHING)
  {
    SecondCost(a[e].routes, i);
    assert |EraseAt(a[e], i).routes| == |a[e].routes| - 1;
  }

  /** In any RIB, whatever its records: when a route is erased and others stay on its face, the FIB
      keeps the cheapest of them if and only if the second-cheapest route costs the same, or an ancestor
      route of that very cost is handed back instead. The entry gets an inherited record on its own face
      whenever nothing captures and an ancestor route is there. Erasing a cheapest route is always right
      for the FIB. */
  lemma {:induction false} SecondOriginExact(a: PlainRib, e: Name, r: Route, was: Option<nat>, had: bool)
    requires e in a && IndexOf(a[e].routes, r) < |a[e].routes|
    requires HasFace(EraseAt(a[e], IndexOf(a[e].routes, r)).routes, r.face)
    ensures var i, u := IndexOf(a[e].routes, r), RibUpdate(Unregister, e, r);
      var temp := EraseAt(a[e], i);
      var lowest, next := Cheapest(temp.routes, r.face, false), SecondCheapest(a[e].routes, r.face);
      var x, above := Emitted(a, u, e, r.face), Ancestor(a, e, r.face);
      && lowest.Some? && next.Some?
      && Want(Edit(a, u), e, r.face) == Some(lowest.value.cost)
      && (Apply(x.fib, was) == Some(lowest.value.cost) <==>
            next.value.cost == lowest.value.cost || (!HasCapture(temp) && Cost(above) == Some(lowest.value.cost)))
      && (a[e].routes[i].cost <= lowest.value.cost ==> next.value.cost == lowest.value.cost)
      && (RecordAfter(x.inh, had) <==> had || (!HasCapture(temp) && above.Some?))
  {
    var i, u := IndexOf(a[e].routes, r), RibUpdate(Unregister, e, r);
    SecondCost(a[e].routes, i);
    SelfEffect(a, e, i);
    assert Emitted(a, u, e, r.face) == ErasedParts(a, e, i, e, r.face);
  }

  /** Its simplest instance: erasing the dearer of two routes on a face that no ancestor passes down
      removes the face from the FIB, although the cheaper route stays. */
  lemma {:induction false} SecondOriginBreaks(a: PlainRib, n: Name, cheap: Route, dear: Route, was: Option<nat>)
    requires n in a && a[n].routes == [cheap, dear] && cheap.face == dear.face && cheap.origin != dear.origin
    requires cheap.cost < dear.cost && Ancestor(a, n, dear.face) == None
    ensures var u := RibUpdate(Unregister, n, dear);
      Apply(Emitted(a, u, n, dear.face).fib, was) != Want(Edit(a, u), n, dear.face) == Some(cheap.cost)
  {
    TwoOrigins(cheap, dear);
    assert EraseAt(a[n], 1).routes == [cheap];
    assert [cheap][0].face == dear.face;
    SecondOriginExact(a, n, dear, was, false);
  }

  lemma {:induction false} TwoOrigins(cheap: Route, dear: Route)
    requires cheap.face == dear.face && cheap.origin != dear.origin && cheap.cost < dear.cost
    ensures IndexOf([cheap, dear], dear) == 1
    ensures Cheapest([cheap], dear.face, false) == Some(cheap)
    ensures SecondCheapest([cheap, dear], dear.face) == Some(dear)
  {
    var rs, f := [cheap, dear], dear.face;
    assert rs[..1] == [cheap] && [cheap][..0] == [] && [dear][..0] == [];
    assert rs[1..] == [dear] && IndexOf([dear], dear) == 0;
    assert OnFace([cheap], f) == [] + [cheap] == [cheap];
    assert OnFace(rs, f) == [cheap] + [dear] == rs;
    assert Cheapest(rs, f, false) == Some(cheap);
    assert Without(rs, cheap) == [dear];
    assert Cheapest([dear], f, false) == Some(dear);
  }
}
