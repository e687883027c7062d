/** When one update leaves the FIB and the inherited records right: an exact condition for every name
    and face, read off the updated entry, its ancestor routes and the update.

    `SelfOk` is the condition at the updated entry, `BelowOk` the one for the entries below it that
    take what it passes down. `PointIsExact` says that nothing else matters. */
module FibSteps {
  import opened Options
  import opened Names
  import opened RibSpec
  import opened FibTheory

  // ---- The conditions ----

  predicate TurnsCaptureOn(nd: Node, r: Route) { !HasCapture(nd) && r.capture }

  /** A further route must not take over an inherited face, or its record stays behind. */
  predicate NewRouteSelfOk(nd: Node, r: Route, f: Face) {
    f == r.face && !HasFace(nd.routes, f) && !TurnsCaptureOn(nd, r) ==> f !in nd.inh
  }

  /** On a face the entry already passes down, a cheaper inheriting route is pushed below although the
      first one in the list counts; turning capture on withdraws it along with the ancestor route. */
  predicate NewRouteBelowOk(a: PlainRib, e: Name, nd: Node, r: Route, f: Face) {
    var first, cheapest := FirstInherited(nd.routes, f), Cheapest(nd.routes, f, true);
    first.Some? ==>
      if f == r.face && r.childInherit && (cheapest.None? || r.cost <= cheapest.value.cost)
      then Cost(first) == Some(r.cost)
      else !(TurnsCaptureOn(nd, r) && Ancestor(a, e, f).Some?)
  }

  /** A route that was the cheapest and no longer is must leave an inheriting one as the cheapest; the
      capture flag must not change while an ancestor route is in play, since the counter stays. */
  predicate UpdatedSelfOk(a: PlainRib, e: Name, nd: Node, i: nat, r: Route, f: Face)
    requires i < |nd.routes|
  {
    var x, rs := nd.routes[i], nd.routes[i := r];
    var lowest := Cheapest(rs, f, false);
    && (f == r.face && lowest.Some? && x.cost < lowest.value.cost < r.cost ==>
          Cost(Cheapest(rs, f, true)) == Cost(lowest))
    && (!x.capture && r.capture ==> f !in nd.inh)
    && (x.capture && !r.capture && HasCapture(nd) && !HasFace(nd.routes, f) ==> Ancestor(a, e, f).None?)
  }

  /** The overwritten route is pushed below: its cost changed and nothing else, or it began to inherit. */
  predicate PushesUpdate(rs: seq<Route>, r: Route, x: Route) {
    var cheapest := Cheapest(rs, r.face, true);
    && r.childInherit && (cheapest.None? || r.cost <= cheapest.value.cost)
    && (!x.childInherit || (r.cost != x.cost && SameFlags(r, x)))
  }

  /** On the face of an overwritten route, without capture in play: what is pushed below is what the
      first inheriting route costs; ceasing to inherit must not let an ancestor route through. */
  predicate InheritOk(nd: Node, i: nat, r: Route, above: Option<Route>)
    requires i < |nd.routes|
  {
    var x, rs := nd.routes[i], nd.routes[i := r];
    var was, first := FirstInherited(nd.routes, r.face), FirstInherited(rs, r.face);
    if r.childInherit then Cost(first) == (if PushesUpdate(rs, r, x) then Some(r.cost) else Cost(was))
    else x.childInherit ==>
      if first.Some? then Cost(Cheapest(rs, r.face, true)) == Cost(first) else HasCapture(nd) ==> above.None?
  }

  predicate UpdatedBelowOk(a: PlainRib, e: Name, nd: Node, i: nat, r: Route, f: Face)
    requires i < |nd.routes|
  {
    var x, above := nd.routes[i], Ancestor(a, e, f);
    var was, first := FirstInherited(nd.routes, f), FirstInherited(nd.routes[i := r], f);
    if !x.capture && r.capture && above.Some? && (was.Some? || !HasCapture(nd)) then first.None? && HasCapture(nd)
    else if x.capture && !r.capture && above.Some? then
      if first.Some? then Cost(first) == Cost(above) else !HasCapture(nd)
    else f == r.face ==> InheritOk(nd, i, r, above)
  }

  /** If a route is left on the erased route's face, the second cheapest must cost what the cheapest
      left does, and no ancestor route may be handed back over it. */
  predicate ErasedSelfOk(a: PlainRib, e: Name, nd: Node, i: nat, f: Face)
    requires i < |nd.routes|
  {
    var x, temp := nd.routes[i], EraseAt(nd, i);
    if f == x.face then
      var lowest, next := Cheapest(temp.routes, f, false), SecondCheapest(nd.routes, f);
      lowest.Some? ==> Cost(next) == Cost(lowest) && (HasCapture(temp) || Ancestor(a, e, f).None?)
    else temp.routes != [] && !HasCapture(nd) && HasCapture(temp) ==> f !in nd.inh
  }

  /** The second-cheapest route that is pushed below after an erasure. */
  function SentAgain(nd: Node, i: nat, f: Face): Option<Route>
    requires i < |nd.routes|
  {
    var next, cheapest := SecondCheapest(nd.routes, f), Cheapest(EraseAt(nd, i).routes, f, true);
    If(f == nd.routes[i].face && next.Some? && next.value.childInherit
       && (cheapest.None? || next.value.cost <= cheapest.value.cost), next)
  }

  /** The erasure hands the ancestor routes to the entries below. */
  predicate GivesBack(nd: Node, i: nat)
    requires i < |nd.routes|
  {
    var x, temp := nd.routes[i], EraseAt(nd, i);
    !HasCapture(temp) && (if x.capture then HasCapture(nd) && temp.routes != [] else x.childInherit)
  }

  predicate ErasedBelowOk(a: PlainRib, e: Name, nd: Node, i: nat, f: Face)
    requires i < |nd.routes|
  {
    var x, temp := nd.routes[i], EraseAt(nd, i);
    var first, again, above := FirstInherited(temp.routes, f), SentAgain(nd, i, f), Ancestor(a, e, f);
    if again.Some? then
      Cost(again) == (if first.Some? then Cost(first) else if HasCapture(temp) then None else Cost(above))
    else if GivesBack(nd, i) && above.Some? then first.Some? ==> Cost(first) == Cost(above)
    else if f == x.face && x.childInherit then
      first.None? && (above.None? || (temp.routes != [] && HasCapture(temp)))
    else
      first.Some? || above.None? || (if temp.routes == [] then !HasCapture(nd) else HasCapture(nd) == HasCapture(temp))
  }

  predicate SelfOk(a: PlainRib, u: RibUpdate, f: Face) {
    var e, r := u.name, u.route;
    e in a ==>
      var nd := a[e];
      var i := IndexOf(nd.routes, r);
      if u.action == Register then
        if i == |nd.routes| then NewRouteSelfOk(nd, r, f) else UpdatedSelfOk(a, e, nd, i, r, f)
      else i < |nd.routes| ==> ErasedSelfOk(a, e, nd, i, f)
  }

  predicate BelowOk(a: PlainRib, u: RibUpdate, f: Face) {
    var e, r := u.name, u.route;
    e in a ==>
      var nd := a[e];
      var i := IndexOf(nd.routes, r);
      if u.action == Register then
        if i == |nd.routes| then NewRouteBelowOk(a, e, nd, r, f) else UpdatedBelowOk(a, e, nd, i, r, f)
      else i < |nd.routes| ==> ErasedBelowOk(a, e, nd, i, f)
  }

  /** The condition for one name and face. */
  ghost predicate PointOk(a: PlainRib, u: RibUpdate, n: Name, f: Face) {
    if n == u.name then SelfOk(a, u, f)
    else Reached(a, u.name, n, f) && !HasFace(a[n].routes, f) ==> BelowOk(a, u, f)
  }

  /** The condition for a whole update: only faces on which some entry below takes what the updated
      entry passes down matter there. */
  ghost predicate Keeps(a: PlainRib, u: RibUpdate) {
    forall f :: SelfOk(a, u, f) && (Hit(a, u.name, f) ==> BelowOk(a, u, f))
  }

  lemma {:induction false} KeepsIsPointwise(a: PlainRib, u: RibUpdate)
    ensures Keeps(a, u) <==> forall n, f :: PointOk(a, u, n, f)
  {
    if Keeps(a, u) {
      forall n, f ensures PointOk(a, u, n, f) {
        assert SelfOk(a, u, f) && (Hit(a, u.name, f) ==> BelowOk(a, u, f));
      }
    }
    if forall n, f :: PointOk(a, u, n, f) {
      forall f ensures SelfOk(a, u, f) && (Hit(a, u.name, f) ==> BelowOk(a, u, f)) {
        assert PointOk(a, u, u.name, f);
        if n :| Reached(a, u.name, n, f) && !HasFace(a[n].routes, f) {
          assert PointOk(a, u, n, f);
        }
      }
    }
  }

  // ---- A new name ----

  ghost predicate Changed(a: PlainRib, b: PlainRib, e: Name, after: Node) {
    AgreeExceptAt(a, b, e) && e in b && b[e].routes == after.routes && b[e].nCapture == after.nCapture
  }

  lemma {:induction false} PassedAfter(a: PlainRib, b: PlainRib, e: Name, after: Node, f: Face)
    requires Changed(a, b, e, after)
    ensures Ancestor(b, e, f) == Ancestor(a, e, f)
    ensures Passed(b, e, f) == PassOf(Some(after), Ancestor(a, e, f), f)
  {
    AncestorFrame(a, b, e, e, f);
  }

  /** One route, alone. */
  lemma {:induction false} SingleLookups(r: Route, f: Face)
    ensures HasFace([r], f) <==> f == r.face
    ensures FirstInherited([r], f) == If(f == r.face && r.childInherit, Some(r))
    ensures Cheapest([r], f, false) == If(f == r.face, Some(r))
  {
    AppendHasFace([], r, f);
    LookupsAppend([], r, f);
    assert [] + [r] == [r];
  }

  lemma {:induction false} NewEntryExact(a: PlainRib, b: PlainRib, e: Name, r: Route, n: Name, f: Face)
    requires e !in a && RecordsExact(a) && Changed(a, b, e, InsertRoute(Node([], 0, {}), r))
    ensures RightAt(a, b, EmitNewEntry(a, e, r, n, f), n, f)
  {
    var after := InsertRoute(Node([], 0, {}), r);
    assert after.routes == [r];
    SingleLookups(r, f);
    PassedAfter(a, b, e, after, f);
    if n != e {
      var above := Ancestor(a, e, f);
      var add := if r.childInherit && f == r.face then Some(r) else If(r.childInherit && !r.capture, above);
      var rem := r.capture && above.Some?;
      var x := EmitNewEntry(a, e, r, n, f);
      PushedLeaves(a, e, add, rem, n, f);
      assert x == Pushed(a, e, add, rem, n, f);
      DescendantStep(a, b, e, x, PushTold(above, above, add, rem), n, f);
    }
  }

  // ---- A further route ----

  lemma {:induction false} NewRouteOwnFace(a: PlainRib, b: PlainRib, e: Name, r: Route)
    requires e in a && RecordsExact(a) && Changed(a, b, e, InsertRoute(a[e], r))
    ensures RightAt(a, b, EmitNewRoute(a, e, a[e], r, TurnsCaptureOn(a[e], r), e, r.face), e, r.face) <==>
            NewRouteSelfOk(a[e], r, r.face)
  {
    AppendHasFace(a[e].routes, r, r.face);
    LookupsAppend(a[e].routes, r, r.face);
    FaceFound(a[e].routes, r.face);
  }

  lemma {:induction false} NewRouteOtherFace(a: PlainRib, b: PlainRib, e: Name, r: Route, f: Face)
    requires e in a && RecordsExact(a) && Changed(a, b, e, InsertRoute(a[e], r)) && f != r.face
    ensures RightAt(a, b, EmitNewRoute(a, e, a[e], r, TurnsCaptureOn(a[e], r), e, f), e, f)
  {
    PassedAfter(a, b, e, InsertRoute(a[e], r), f);
    AppendHasFace(a[e].routes, r, f);
    LookupsAppend(a[e].routes, r, f);
    FaceFound(a[e].routes, f);
  }

  lemma {:induction false} NewRouteSelf(a: PlainRib, b: PlainRib, e: Name, r: Route, f: Face)
    requires e in a && RecordsExact(a) && Changed(a, b, e, InsertRoute(a[e], r))
    ensures RightAt(a, b, EmitNewRoute(a, e, a[e], r, TurnsCaptureOn(a[e], r), e, f), e, f) <==>
            NewRouteSelfOk(a[e], r, f)
  {
    if f == r.face {
      NewRouteOwnFace(a, b, e, r);
    } else {
      NewRouteOtherFace(a, b, e, r, f);
    }
  }

  lemma {:induction false} NewRouteTold(a: PlainRib, e: Name, r: Route, f: Face)
    requires e in a
    ensures var nd, above := a[e], Ancestor(a, e, f);
      var prev := Cheapest(nd.routes, r.face, true);
      var add := If(f == r.face && r.childInherit && (prev.None? || r.cost <= prev.value.cost), Some(r));
      var told := PushTold(Passed(a, e, f), Passed(a, e, f), add, TurnsCaptureOn(nd, r) && above.Some?);
      Cost(told) == Cost(PassOf(Some(InsertRoute(nd, r)), above, f)) <==> NewRouteBelowOk(a, e, nd, r, f)
  {
    LookupsAppend(a[e].routes, r, f);
    FaceFound(a[e].routes, f);
  }

  /** A further route, for every name and face. */
  lemma {:induction false} NewRouteExact(a: PlainRib, b: PlainRib, e: Name, r: Route, n: Name, f: Face)
    requires e in a && n != e && RecordsExact(a) && Changed(a, b, e, InsertRoute(a[e], r))
    ensures RightAt(a, b, EmitNewRoute(a, e, a[e], r, TurnsCaptureOn(a[e], r), n, f), n, f) <==>
            (Reached(a, e, n, f) && !HasFace(a[n].routes, f) ==> NewRouteBelowOk(a, e, a[e], r, f))
  {
    var nd, above, was := a[e], Ancestor(a, e, f), Passed(a, e, f);
    var prev := Cheapest(nd.routes, r.face, true);
    var add := If(f == r.face && r.childInherit && (prev.None? || r.cost <= prev.value.cost), Some(r));
    var rem := TurnsCaptureOn(nd, r) && above.Some?;
    PassedAfter(a, b, e, InsertRoute(nd, r), f);
    PushedLeaves(a, e, add, rem, n, f);
    NewRouteTold(a, e, r, f);
    DescendantStep(a, b, e, EmitNewRoute(a, e, nd, r, TurnsCaptureOn(nd, r), n, f), PushTold(was, was, add, rem), n, f);
  }

  // ---- An overwritten route ----

  function Overwritten(nd: Node, i: nat, r: Route): Node
    requires i < |nd.routes|
  {
    nd.(routes := nd.routes[i := r])
  }

  predicate Overwrites(a: PlainRib, e: Name, i: nat, r: Route) {
    && e in a && i < |a[e].routes| && a[e].routes[i].face == r.face
    && UpdatedRouteIsDefined(Overwritten(a[e], i, r), r, a[e].routes[i])
  }

  /** At the entry itself only the cost part and the capture part have an effect. */
  lemma {:induction false} UpdatedSelfEffect(a: PlainRib, e: Name, i: nat, r: Route, f: Face)
    requires Overwrites(a, e, i, r)
    ensures var nd, x := Overwritten(a[e], i, r), a[e].routes[i];
      EmitUpdatedRoute(a, e, nd, r, x, e, f) ==
        Then(UpdatedCost(e, nd, r, x, e, f), UpdatedCapture(a, e, nd, r, x, e, f))
  {
    assert forall add, rem :: Pushed(a, e, add, rem, e, f) == NOTHING;
  }

  lemma {:induction false} UpdatedOwnFace(a: PlainRib, b: PlainRib, e: Name, i: nat, r: Route)
    requires Overwrites(a, e, i, r) && RecordsExact(a) && Changed(a, b, e, Overwritten(a[e], i, r))
    ensures var nd, x := Overwritten(a[e], i, r), a[e].routes[i];
      var y := Then(UpdatedCost(e, nd, r, x, e, r.face), UpdatedCapture(a, e, nd, r, x, e, r.face));
      RightAt(a, b, y, e, r.face) <==> UpdatedSelfOk(a, e, a[e], i, r, r.face)
  {
    ReplaceElsewhere(a[e].routes, i, r, r.face);
    ReplaceCost(a[e].routes, i, r);
    assert HasFace(a[e].routes, r.face);
  }

  lemma {:induction false} UpdatedOtherFace(a: PlainRib, b: PlainRib, e: Name, i: nat, r: Route, f: Face)
    requires Overwrites(a, e, i, r) && RecordsExact(a) && Changed(a, b, e, Overwritten(a[e], i, r)) && f != r.face
    ensures var nd, x := Overwritten(a[e], i, r), a[e].routes[i];
      RightAt(a, b, UpdatedCapture(a, e, nd, r, x, e, f), e, f) <==> UpdatedSelfOk(a, e, a[e], i, r, f)
  {
    PassedAfter(a, b, e, Overwritten(a[e], i, r), f);
    ReplaceElsewhere(a[e].routes, i, r, f);
    FaceFound(a[e].routes, f);
  }

  lemma {:induction false} UpdatedSelf(a: PlainRib, b: PlainRib, e: Name, i: nat, r: Route, f: Face)
    requires Overwrites(a, e, i, r) && RecordsExact(a) && Changed(a, b, e, Overwritten(a[e], i, r))
    ensures RightAt(a, b, EmitUpdatedRoute(a, e, Overwritten(a[e], i, r), r, a[e].routes[i], e, f), e, f) <==>
            UpdatedSelfOk(a, e, a[e], i, r, f)
  {
    UpdatedSelfEffect(a, e, i, r, f);
    if f == r.face {
      UpdatedOwnFace(a, b, e, i, r);
    } else {
      UpdatedOtherFace(a, b, e, i, r, f);
    }
  }

  /** What the child-inherit part leaves below. */
  function ToldInherit(nd: Node, i: nat, r: Route, above: Option<Route>, was: Option<Route>, f: Face): Option<Route>
    requires i < |nd.routes|
  {
    var x, rs := nd.routes[i], nd.routes[i := r];
    var prev := Cheapest(rs, r.face, true);
    if f != r.face then was
    else if PushesUpdate(rs, r, x) then Some(r)
    else if x.childInherit && !r.childInherit then PushTold(was, was, if prev.Some? then prev else above, true)
    else was
  }

  /** What the capture part then leaves below. */
  function ToldUpdated(nd: Node, i: nat, r: Route, above: Option<Route>, was: Option<Route>, f: Face): Option<Route>
    requires i < |nd.routes|
  {
    var x, told := nd.routes[i], ToldInherit(nd, i, r, above, was, f);
    if !x.capture && r.capture then PushTold(told, was, None, above.Some?)
    else if x.capture && !r.capture then PushTold(told, was, above, false)
    else told
  }

  lemma {:induction false} UpdatedLeaves(a: PlainRib, e: Name, i: nat, r: Route, n: Name, f: Face)
    requires Overwrites(a, e, i, r) && RecordsExact(a) && n != e
    ensures Leaves(a, e, EmitUpdatedRoute(a, e, Overwritten(a[e], i, r), r, a[e].routes[i], n, f),
                   ToldUpdated(a[e], i, r, Ancestor(a, e, f), Passed(a, e, f), f), n, f)
  {
    var nd, x, was, above := Overwritten(a[e], i, r), a[e].routes[i], Passed(a, e, f), Ancestor(a, e, f);
    var prev := Cheapest(nd.routes, r.face, true);
    var y := UpdatedInherit(a, e, nd, r, x, n, f);
    var told := ToldInherit(a[e], i, r, above, was, f);
    if OnlyCostPassedDown(nd, r, x) {
      PushedLeaves(a, e, If(f == r.face, Some(r)), false, n, f);
    } else {
      InheritLeaves(a, e, i, r, n, f);
      if !x.capture && r.capture {
        ThenPushed(a, e, y, told, None, above.Some?, n, f);
      } else if x.capture && !r.capture {
        ThenPushed(a, e, y, told, above, false, n, f);
      }
    }
  }

  lemma {:induction false} InheritLeaves(a: PlainRib, e: Name, i: nat, r: Route, n: Name, f: Face)
    requires Overwrites(a, e, i, r) && RecordsExact(a) && n != e
    requires !OnlyCostPassedDown(Overwritten(a[e], i, r), r, a[e].routes[i])
    ensures Leaves(a, e, UpdatedInherit(a, e, Overwritten(a[e], i, r), r, a[e].routes[i], n, f),
                   ToldInherit(a[e], i, r, Ancestor(a, e, f), Passed(a, e, f), f), n, f)
  {
    var x, rs, above := a[e].routes[i], a[e].routes[i := r], Ancestor(a, e, f);
    var prev := Cheapest(rs, r.face, true);
    if !x.childInherit && r.childInherit {
      PushedLeaves(a, e, If(f == r.face && (prev.None? || r.cost <= prev.value.cost), Some(r)), false, n, f);
    } else if x.childInherit && !r.childInherit {
      PushedLeaves(a, e, If(f == r.face, if prev.Some? then prev else above), f == r.face, n, f);
    }
  }

  lemma {:induction false} ToldInheritIsRight(nd: Node, i: nat, r: Route, above: Option<Route>)
    requires i < |nd.routes| && nd.routes[i].face == r.face
    ensures var was := PassOf(Some(nd), above, r.face);
      Cost(ToldInherit(nd, i, r, above, was, r.face)) == Cost(PassOf(Some(Overwritten(nd, i, r)), above, r.face)) <==>
      InheritOk(nd, i, r, above)
  {
    ReplaceFirst(nd.routes, i, r);
    if r.childInherit {
      CheaperWasThere(nd.routes, i, r);
    }
    FaceFound(nd.routes[i := r], r.face);
  }

  lemma {:induction false} ToldUpdatedIsRight(a: PlainRib, e: Name, i: nat, r: Route, f: Face)
    requires Overwrites(a, e, i, r)
    ensures var above := Ancestor(a, e, f);
      Cost(ToldUpdated(a[e], i, r, above, Passed(a, e, f), f)) ==
        Cost(PassOf(Some(Overwritten(a[e], i, r)), above, f)) <==>
        UpdatedBelowOk(a, e, a[e], i, r, f)
  {
    if f == r.face {
      ReplaceFirst(a[e].routes, i, r);
      ToldInheritIsRight(a[e], i, r, Ancestor(a, e, f));
    } else {
      ReplaceElsewhere(a[e].routes, i, r, f);
    }
  }

  lemma {:induction false} FirstSplit(rs: seq<Route>, ss: seq<Route>, f: Face)
    ensures FirstInherited(rs + ss, f) == var c := FirstInherited(rs, f); if c.Some? then c else FirstInherited(ss, f)
  {
    if ss == [] {
      assert rs + ss == rs;
    } else {
      assert (rs + ss)[..|rs + ss| - 1] == rs + ss[..|ss| - 1];
      FirstSplit(rs, ss[..|ss| - 1], f);
    }
  }

  lemma {:induction false} FirstAt(rs: seq<Route>, i: nat, f: Face)
    requires i < |rs|
    ensures FirstInherited(rs, f) ==
      var c := FirstInherited(rs[..i], f);
      if c.Some? then c
      else if rs[i].face == f && rs[i].childInherit then Some(rs[i]) else FirstInherited(rs[i + 1..], f)
  {
    FirstSplit(rs[..i], [rs[i]], f);
    FirstSplit(rs[..i] + [rs[i]], rs[i + 1..], f);
    assert rs == (rs[..i] + [rs[i]]) + rs[i + 1..];
    SingleLookups(rs[i], f);
  }

  /** The first inheriting route on the face of an overwritten route. */
  lemma {:induction false} ReplaceFirst(rs: seq<Route>, i: nat, r: Route)
    requires i < |rs| && rs[i].face == r.face
    ensures var was, first := FirstInherited(rs, r.face), FirstInherited(rs[i := r], r.face);
      && (rs[i].childInherit ==> was.Some?) && (r.childInherit ==> first.Some?)
      && (!r.childInherit && !rs[i].childInherit ==> was == first)
      && (r.cost == rs[i].cost && r.childInherit == rs[i].childInherit ==> Cost(was) == Cost(first))
  {
    var ss := rs[i := r];
    FirstAt(rs, i, r.face);
    FirstAt(ss, i, r.face);
    assert ss[..i] == rs[..i] && ss[i + 1..] == rs[i + 1..];
  }

  /** A cheaper inheriting route than the new one was there before. */
  lemma {:induction false} CheaperWasThere(rs: seq<Route>, i: nat, r: Route)
    requires i < |rs| && rs[i].face == r.face && r.childInherit
    ensures var cheapest := Cheapest(rs[i := r], r.face, true);
      cheapest.Some? && (cheapest.value.cost < r.cost ==> FirstInherited(rs, r.face).Some?)
  {
    var ss := rs[i := r];
    assert ss[i] == r;
    var cheapest := Cheapest(ss, r.face, true);
    var k :| 0 <= k < |ss| && ss[k] == cheapest.value;
    assert k != i ==> rs[k] == cheapest.value;
  }

  /** An overwritten route, for every name and face below. */
  lemma {:induction false} UpdatedRouteExact(a: PlainRib, b: PlainRib, e: Name, i: nat, r: Route, n: Name, f: Face)
    requires Overwrites(a, e, i, r) && n != e && RecordsExact(a) && Changed(a, b, e, Overwritten(a[e], i, r))
    ensures RightAt(a, b, EmitUpdatedRoute(a, e, Overwritten(a[e], i, r), r, a[e].routes[i], n, f), n, f) <==>
            (Reached(a, e, n, f) && !HasFace(a[n].routes, f) ==> UpdatedBelowOk(a, e, a[e], i, r, f))
  {
    PassedAfter(a, b, e, Overwritten(a[e], i, r), f);
    UpdatedLeaves(a, e, i, r, n, f);
    ToldUpdatedIsRight(a, e, i, r, f);
    DescendantStep(a, b, e, EmitUpdatedRoute(a, e, Overwritten(a[e], i, r), r, a[e].routes[i], n, f),
                   ToldUpdated(a[e], i, r, Ancestor(a, e, f), Passed(a, e, f), f), n, f);
  }

  // ---- Where an overwrite is not defined ----

  /** The route at `i` was strictly the cheapest on its face, its replacement is dearer than some other
      route there, and no route on the face will inherit. */
  predicate LosesLead(rs: seq<Route>, i: nat, r: Route)
    requires i < |rs|
  {
    && !InheritsOn(rs[i := r], r.face)
    && (exists j :: 0 <= j < |rs| && j != i && rs[j].face == r.face && rs[j].cost < r.cost)
    && (forall j | 0 <= j < |rs| && j != i && rs[j].face == r.face :: rs[i].cost < rs[j].cost)
  }

  lemma {:induction false} LeadIsLost(rs: seq<Route>, i: nat, r: Route)
    requires i < |rs| && rs[i].face == r.face
    ensures var ss := rs[i := r];
      var lowest := Cheapest(ss, r.face, false);
      && lowest.Some?
      && (rs[i].cost < lowest.value.cost < r.cost && Cheapest(ss, r.face, true).None? <==> LosesLead(rs, i, r))
  {
    var ss := rs[i := r];
    FaceFound(ss, r.face);
    assert ss[i].face == r.face;
    var lowest := Cheapest(ss, r.face, false).value;
    var k :| 0 <= k < |ss| && ss[k] == lowest;
    assert forall j | 0 <= j < |rs| && j != i :: ss[j] == rs[j];
    if LosesLead(rs, i, r) {
      var j :| 0 <= j < |rs| && j != i && rs[j].face == r.face && rs[j].cost < r.cost;
      assert ss[j].face == r.face && k != i;
    }
  }

  /** The updater dereferences the cheapest inheriting route without testing it. On any RIB, an
      overwrite reaches that with no such route if and only if the overwritten route loses its lead. */
  lemma {:induction false} DefinedExact(a: PlainRib, u: RibUpdate)
    requires u.action == Register && u.name in a && IndexOf(a[u.name].routes, u.route) < |a[u.name].routes|
    ensures IsDefined(a, u) <==> !LosesLead(a[u.name].routes, IndexOf(a[u.name].routes, u.route), u.route)
  {
    LeadIsLost(a[u.name].routes, IndexOf(a[u.name].routes, u.route), u.route);
  }

  predicate OneRoutePerFace(rs: seq<Route>) { forall i, j | 0 <= i < j < |rs| :: rs[i].face != rs[j].face }

  /** It is never reached on an entry with one route per face, nor by anything but an overwrite. */
  lemma {:induction false} DefinedWhenOneRoutePerFace(a: PlainRib, u: RibUpdate)
    requires u.action == Register && u.name in a ==> OneRoutePerFace(a[u.name].routes)
    ensures IsDefined(a, u)
  {
    if u.action == Register && u.name in a && IndexOf(a[u.name].routes, u.route) < |a[u.name].routes| {
      DefinedExact(a, u);
    }
  }

  // ---- An erased route ----

  /** What is left at `e` in `b` after erasing the route at `i`. */
  ghost predicate Erases(a: PlainRib, b: PlainRib, e: Name, i: nat) {
    && e in a && i < |a[e].routes| && AgreeExceptAt(a, b, e)
    && var temp := EraseAt(a[e], i);
      if temp.routes == [] then e !in b else Changed(a, b, e, temp)
  }

  /** The effects of an unregistration that finds its route. */
  ghost function ErasedParts(a: PlainRib, e: Name, i: nat, n: Name, f: Face): Effect
    requires e in a && i < |a[e].routes|
  {
    var nd, temp := a[e], EraseAt(a[e], i);
    var next := SecondCheapest(nd.routes, nd.routes[i].face);
    Then(Then(EmitErasedRoute(a, e, temp, nd.routes[i], HasCapture(nd) && !HasCapture(temp), n, f),
              if next.Some? then EmitNewRoute(a, e, temp, next.value, false, n, f) else NOTHING),
         if |nd.routes| == 1 then EmitErasedEntry(e, nd, n, f) else NOTHING)
  }

  function PassedLeft(a: PlainRib, e: Name, temp: Node, f: Face): Option<Route> {
    if temp.routes == [] then Ancestor(a, e, f) else PassOf(Some(temp), Ancestor(a, e, f), f)
  }

  lemma {:induction false} PassedAfterErasing(a: PlainRib, b: PlainRib, e: Name, i: nat, f: Face)
    requires Erases(a, b, e, i)
    ensures Ancestor(b, e, f) == Ancestor(a, e, f)
    ensures Passed(b, e, f) == PassedLeft(a, e, EraseAt(a[e], i), f)
  {
    AncestorFrame(a, b, e, e, f);
  }

  /** Lookups in what is left, on the erased route's face and on others. */
  lemma {:induction false} LeftLookups(rs: seq<Route>, i: nat, f: Face)
    requires i < |rs|
    ensures var ss := rs[..i] + rs[i + 1..];
      && HasFace(rs, rs[i].face)
      && (f != rs[i].face ==> (HasFace(ss, f) <==> HasFace(rs, f)))
      && (f != rs[i].face ==> FirstInherited(ss, f) == FirstInherited(rs, f))
      && (f != rs[i].face ==> Cheapest(ss, f, false) == Cheapest(rs, f, false))
      && (HasFace(ss, f) <==> Cheapest(ss, f, false).Some?)
      && (HasFace(rs, f) <==> Cheapest(rs, f, false).Some?)
      && (SecondCheapest(rs, rs[i].face).Some? <==> HasFace(ss, rs[i].face))
  {
    var ss := rs[..i] + rs[i + 1..];
    SecondExists(rs, i);
    FaceFound(ss, f);
    FaceFound(rs, f);
    if f != rs[i].face {
      EraseElsewhere(rs, i, f);
    }
  }

  lemma {:induction false} ErasedSelf(a: PlainRib, b: PlainRib, e: Name, i: nat, f: Face)
    requires Erases(a, b, e, i) && RecordsExact(a)
    ensures RightAt(a, b, ErasedParts(a, e, i, e, f), e, f) <==> ErasedSelfOk(a, e, a[e], i, f)
  {
    PassedAfterErasing(a, b, e, i, f);
    LeftLookups(a[e].routes, i, f);
  }

  /** What an erasure leaves below. */
  function ToldErased(nd: Node, i: nat, above: Option<Route>, was: Option<Route>, f: Face): Option<Route>
    requires i < |nd.routes|
  {
    var told := PushTold(was, was, If(GivesBack(nd, i), above), f == nd.routes[i].face && nd.routes[i].childInherit);
    PushTold(told, was, SentAgain(nd, i, f), false)
  }

  /** What an erasure pushes below in its first part. */
  lemma {:induction false} ErasedForm(a: PlainRib, e: Name, i: nat, n: Name, f: Face)
    requires e in a && i < |a[e].routes| && n != e
    ensures var nd, temp, x := a[e], EraseAt(a[e], i), a[e].routes[i];
      EmitErasedRoute(a, e, temp, x, HasCapture(nd) && !HasCapture(temp), n, f) ==
      Pushed(a, e, If(GivesBack(nd, i), Ancestor(a, e, f)), f == x.face && x.childInherit, n, f)
  {
  }

  lemma {:induction false} ErasedLeaves(a: PlainRib, e: Name, i: nat, n: Name, f: Face)
    requires e in a && i < |a[e].routes| && RecordsExact(a) && n != e
    ensures Leaves(a, e, ErasedParts(a, e, i, n, f), ToldErased(a[e], i, Ancestor(a, e, f), Passed(a, e, f), f), n, f)
  {
    var nd, was := a[e], Passed(a, e, f);
    var x, next := nd.routes[i], SecondCheapest(nd.routes, nd.routes[i].face);
    var add, rem := If(GivesBack(nd, i), Ancestor(a, e, f)), f == x.face && x.childInherit;
    var y := Pushed(a, e, add, rem, n, f);
    ErasedForm(a, e, i, n, f);
    PushedLeaves(a, e, add, rem, n, f);
    if next.Some? {
      ThenPushed(a, e, y, PushTold(was, was, add, rem), SentAgain(nd, i, f), false, n, f);
    }
  }

  lemma {:induction false} ToldErasedIsRight(a: PlainRib, e: Name, i: nat, f: Face)
    requires e in a && i < |a[e].routes|
    ensures var told := ToldErased(a[e], i, Ancestor(a, e, f), Passed(a, e, f), f);
      Cost(told) == Cost(PassedLeft(a, e, EraseAt(a[e], i), f)) <==> ErasedBelowOk(a, e, a[e], i, f)
  {
    LeftLookups(a[e].routes, i, f);
    ErasedFirst(a[e].routes, i);
  }

  /** The first inheriting route on the face of an erased route. */
  lemma {:induction false} ErasedFirst(rs: seq<Route>, i: nat)
    requires i < |rs|
    ensures var was, first := FirstInherited(rs, rs[i].face), FirstInherited(rs[..i] + rs[i + 1..], rs[i].face);
      (rs[i].childInherit ==> was.Some?) && (!rs[i].childInherit ==> was == first)
  {
    FirstAt(rs, i, rs[i].face);
    FirstSplit(rs[..i], rs[i + 1..], rs[i].face);
  }

  /** An erased route, for every name and face below. */
  lemma {:induction false} ErasedRouteExact(a: PlainRib, b: PlainRib, e: Name, i: nat, n: Name, f: Face)
    requires Erases(a, b, e, i) && n != e && RecordsExact(a)
    ensures RightAt(a, b, ErasedParts(a, e, i, n, f), n, f) <==>
            (Reached(a, e, n, f) && !HasFace(a[n].routes, f) ==> ErasedBelowOk(a, e, a[e], i, f))
  {
    PassedAfterErasing(a, b, e, i, f);
    ErasedLeaves(a, e, i, n, f);
    ToldErasedIsRight(a, e, i, f);
    DescendantStep(a, b, e, ErasedParts(a, e, i, n, f),
                   ToldErased(a[e], i, Ancestor(a, e, f), Passed(a, e, f), f), n, f);
  }

  // ---- Any update ----

  /** Without a matching route nothing is emitted and nothing changes. */
  lemma {:induction false} IdleStep(a: PlainRib, b: PlainRib, n: Name, f: Face)
    requires SameRoutes(a, b) && RecordsExact(a)
    ensures RightAt(a, b, NOTHING, n, f)
  {
    forall j | 0 <= j < |n| ensures AgreeAt(a, b, n[..j]) {}
    AboveLocal(a, b, n, |n|, f);
  }

  /** MAIN POINT THEOREM. Let the inherited records be exact. After a registration or unregistration,
      on any RIB, the FIB and the record at (n, f) are the from-scratch ones if and only if `PointOk`. */
  lemma {:induction false} PointIsExact(a: PlainRib, u: RibUpdate, b: PlainRib, n: Name, f: Face)
    requires u.action != RemoveFace && IsDefined(a, u) && RecordsExact(a) && SameRoutes(Edit(a, u), b)
    ensures RightAt(a, b, Emitted(a, u, n, f), n, f) <==> PointOk(a, u, n, f)
  {
    var e, r := u.name, u.route;
    if u.action == Register {
      RegisterIsExact(a, u, b, n, f);
    } else if e !in a || IndexOf(a[e].routes, r) == |a[e].routes| {
      IdleStep(a, b, n, f);
    } else {
      var i := IndexOf(a[e].routes, r);
      assert Erases(a, b, e, i);
      assert Emitted(a, u, n, f) == ErasedParts(a, e, i, n, f);
      if n == e { ErasedSelf(a, b, e, i, f); } else { ErasedRouteExact(a, b, e, i, n, f); }
    }
  }

  lemma {:induction false} RegisterIsExact(a: PlainRib, u: RibUpdate, b: PlainRib, n: Name, f: Face)
    requires u.action == Register && IsDefined(a, u) && RecordsExact(a) && SameRoutes(Edit(a, u), b)
    ensures RightAt(a, b, Emitted(a, u, n, f), n, f) <==> PointOk(a, u, n, f)
  {
    var e, r := u.name, u.route;
    if e !in a {
      NewEntryExact(a, b, e, r, n, f);
    } else {
      var i := IndexOf(a[e].routes, r);
      if i == |a[e].routes| {
        if n == e { NewRouteSelf(a, b, e, r, f); } else { NewRouteExact(a, b, e, r, n, f); }
      } else {
        assert Overwrites(a, e, i, r);
        if n == e { UpdatedSelf(a, b, e, i, r, f); } else { UpdatedRouteExact(a, b, e, i, r, n, f); }
      }
    }
  }

  /** The same for all names and faces at once. */
  lemma {:induction false} AllRightIsKeeps(a: PlainRib, u: RibUpdate, b: PlainRib)
    requires u.action != RemoveFace && IsDefined(a, u) && RecordsExact(a) && SameRoutes(Edit(a, u), b)
    ensures AllRight(a, u, b) <==> Keeps(a, u)
  {
    KeepsIsPointwise(a, u);
    forall n, f ensures RightAt(a, b, Emitted(a, u, n, f), n, f) <==> PointOk(a, u, n, f) {
      PointIsExact(a, u, b, n, f);
    }
  }

  /** For a route whose face is being removed, the same holds of an unregistration's condition on every
      other face. On the removed face nothing is sent, since the forwarder drops it, and the records are
      right where an unregistration would leave them right. */
  lemma {:induction false} RemoveFaceIsExact(a: PlainRib, u: RibUpdate, b: PlainRib, n: Name, f: Face)
    requires u.action == RemoveFace && RecordsExact(a) && SameRoutes(Edit(a, u), b)
    ensures f != u.route.face ==>
              (RightAt(a, b, Emitted(a, u, n, f), n, f) <==> PointOk(a, u.(action := Unregister), n, f))
    ensures f == u.route.face ==> Emitted(a, u, n, f).fib == None
    ensures f == u.route.face && PointOk(a, u.(action := Unregister), n, f) && n in b ==>
              (RecordAfter(Emitted(a, u, n, f).inh, WantInherited(a, n, f)) <==> WantInherited(b, n, f))
  {
    PointIsExact(a, u.(action := Unregister), b, n, f);
  }
}
