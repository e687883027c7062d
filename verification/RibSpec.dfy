/** What the RIB holds, what the FIB should hold, and what the FIB updater emits.

    `Want` is the from-scratch definition of the FIB: an entry's own cheapest route per face, else
    the route of the nearest child-inheriting ancestor, where a capturing entry stops the search.
    `Emitted` describes, for one (name, face) at a time, the FIB update and the inherited-route
    record that the updater produces for one RIB update, without walking any tree. */
module RibSpec {
  import opened Options
  import opened Names

  type Face = nat

  /** `flags` is split into its two defined bits and the rest. */
  datatype Route = Route(face: Face, origin: nat, cost: nat, childInherit: bool, capture: bool, otherFlags: nat)

  predicate SameFlags(r: Route, s: Route) {
    r.childInherit == s.childInherit && r.capture == s.capture && r.otherFlags == s.otherFlags
  }

  /** A RIB entry without its tree links. `inh` is the set of faces with an inherited-route record;
      `nCapture` is the entry's counter of capturing routes. */
  datatype Node = Node(routes: seq<Route>, nCapture: nat, inh: set<Face>)

  type PlainRib = map<Name, Node>

  datatype Action = Register | Unregister | RemoveFace
  datatype RibUpdate = RibUpdate(action: Action, name: Name, route: Route)

  // ---- Queries of a RIB entry ----

  /** Position of the first route with the same face and origin, or `|rs|`. */
  function IndexOf(rs: seq<Route>, r: Route): (i: nat)
    ensures i <= |rs|
    ensures i < |rs| ==> rs[i].face == r.face && rs[i].origin == r.origin
    ensures forall j | 0 <= j < i :: rs[j].face != r.face || rs[j].origin != r.origin
  {
    if rs == [] then 0
    else if rs[0].face == r.face && rs[0].origin == r.origin then 0
    else 1 + IndexOf(rs[1..], r)
  }

  predicate HasFace(rs: seq<Route>, f: Face) { exists i :: 0 <= i < |rs| && rs[i].face == f }

  predicate InheritsOn(rs: seq<Route>, f: Face) {
    exists i :: 0 <= i < |rs| && rs[i].face == f && rs[i].childInherit
  }

  /** The cheapest route on a face, the earliest among equals; with `ci`, among child-inheriting ones. */
  function Cheapest(rs: seq<Route>, f: Face, ci: bool): (c: Option<Route>)
    ensures c.Some? ==> c.value in rs && c.value.face == f && (ci ==> c.value.childInherit)
    ensures c.None? ==> forall i | 0 <= i < |rs| :: rs[i].face != f || (ci && !rs[i].childInherit)
    ensures c.Some? ==> forall i | 0 <= i < |rs| && rs[i].face == f && (ci ==> rs[i].childInherit) ::
      c.value.cost <= rs[i].cost
  {
    if rs == [] then None
    else
      var r := rs[|rs| - 1];
      var c := Cheapest(rs[..|rs| - 1], f, ci);
      if r.face == f && (ci ==> r.childInherit) && (c.None? || r.cost < c.value.cost) then Some(r) else c
  }

  /** The route a set ordered by face keeps when the list is inserted in order: the first one. */
  function FirstInherited(rs: seq<Route>, f: Face): (c: Option<Route>)
    ensures c.Some? ==> c.value in rs && c.value.face == f && c.value.childInherit
    ensures c.None? <==> !InheritsOn(rs, f)
  {
    if rs == [] then None
    else
      var c := FirstInherited(rs[..|rs| - 1], f);
      var r := rs[|rs| - 1];
      if c.None? && r.face == f && r.childInherit then Some(r) else c
  }

  /** Routes on `f`, in list order. */
  function OnFace(rs: seq<Route>, f: Face): (s: seq<Route>)
    ensures forall r | r in s :: r in rs && r.face == f
  {
    if rs == [] then []
    else
      var s := OnFace(rs[..|rs| - 1], f);
      if rs[|rs| - 1].face == f then s + [rs[|rs| - 1]] else s
  }

  /** Removes the first occurrence. */
  function Without(rs: seq<Route>, r: Route): seq<Route>
    requires r in rs
  {
    if rs[0] == r then rs[1..] else [rs[0]] + Without(rs[1..], r)
  }

  /** The second cheapest route on a face. Among routes of equal cost the earliest is taken; the
      library call may pick any of those. */
  function SecondCheapest(rs: seq<Route>, f: Face): Option<Route> {
    var m := OnFace(rs, f);
    if |m| < 2 then None
    else
      var c := Cheapest(m, f, false);
      if c.None? then None else Cheapest(Without(m, c.value), f, false)
  }

  function CountCapture(rs: seq<Route>): nat {
    if rs == [] then 0 else CountCapture(rs[..|rs| - 1]) + (if rs[|rs| - 1].capture then 1 else 0)
  }

  predicate HasCapture(nd: Node) { nd.nCapture > 0 }

  const UINT64: nat := 0x1_0000_0000_0000_0000

  /** The entry after erasing the route at `i`; the counter is unsigned and wraps below zero. */
  function EraseAt(nd: Node, i: nat): Node
    requires i < |nd.routes|
  {
    Node(nd.routes[..i] + nd.routes[i + 1..],
         if nd.routes[i].capture then (if nd.nCapture == 0 then UINT64 - 1 else nd.nCapture - 1) else nd.nCapture,
         nd.inh)
  }

  function InsertRoute(nd: Node, r: Route): Node {
    Node(nd.routes + [r], nd.nCapture + (if r.capture then 1 else 0), nd.inh)
  }

  // ---- From-scratch definition of the FIB ----

  function Get(a: PlainRib, n: Name): Option<Node> { if n in a then Some(a[n]) else None }

  /** What a name hands to the names below it on `f`, given what reaches it from above. */
  function PassOf(nd: Option<Node>, above: Option<Route>, f: Face): Option<Route> {
    if nd.None? then above
    else
      var c := FirstInherited(nd.value.routes, f);
      if c.Some? then c else if HasCapture(nd.value) then None else above
  }

  /** What reaches `n` on `f` from its prefixes shorter than `k`. */
  function Above(a: PlainRib, n: Name, k: nat, f: Face): Option<Route>
    requires k <= |n|
  {
    if k == 0 then None else PassOf(Get(a, n[..k - 1]), Above(a, n, k - 1, f), f)
  }

  /** The ancestor route for `n` on `f`. */
  function Ancestor(a: PlainRib, n: Name, f: Face): Option<Route> { Above(a, n, |n|, f) }

  function Cost(r: Option<Route>): Option<nat> { if r.None? then None else Some(r.value.cost) }

  function Want(a: PlainRib, n: Name, f: Face): Option<nat> {
    if n !in a then None
    else
      var own := Cheapest(a[n].routes, f, false);
      if own.Some? then Some(own.value.cost)
      else if HasCapture(a[n]) then None
      else Cost(Ancestor(a, n, f))
  }

  predicate WantInherited(a: PlainRib, n: Name, f: Face) {
    n in a && !HasFace(a[n].routes, f) && !HasCapture(a[n]) && Ancestor(a, n, f).Some?
  }

  // ---- What one update emits for one name and face ----

  datatype Act = Add(cost: nat) | Remove

  /** The net effect on one (name, face): the FIB command and the change of the inherited record. */
  datatype Effect = Effect(fib: Option<Act>, inh: Option<bool>)

  const NOTHING := Effect(None, None)

  function AddOwn(cost: nat): Effect { Effect(Some(Add(cost)), None) }

  function AddInherited(cost: nat): Effect { Effect(Some(Add(cost)), Some(true)) }

  const DROP_OWN := Effect(Some(Remove), None)
  const DROP_INHERITED := Effect(Some(Remove), Some(false))

  /** `x`, then `y`: a later record for the same name and face replaces an earlier one. */
  function Then(x: Effect, y: Effect): Effect {
    Effect(if y.fib.Some? then y.fib else x.fib, if y.inh.Some? then y.inh else x.inh)
  }

  predicate OpenAt(a: PlainRib, m: Name, f: Face) {
    m in a ==> !HasCapture(a[m]) && !InheritsOn(a[m].routes, f)
  }

  /** A change at `e` on `f` reaches `n`: no entry from below `e` down to `n` captures or inherits on `f`. */
  ghost predicate Reached(a: PlainRib, e: Name, n: Name, f: Face) {
    n in a && e < n && forall k | |e| < k <= |n| :: OpenAt(a, n[..k], f)
  }

  /** Effect on a reached entry of removing (if `rem`) and then adding (if `add`) an inherited route. */
  function Adjust(nd: Node, add: Option<Route>, rem: bool, f: Face): Effect {
    if add.Some? && !HasFace(nd.routes, f) then AddInherited(add.value.cost)
    else if rem && f in nd.inh then DROP_INHERITED
    else NOTHING
  }

  /** Effect on `n` of pushing an addition and a removal on `f` through the subtrees below `e`. */
  ghost function Pushed(a: PlainRib, e: Name, add: Option<Route>, rem: bool, n: Name, f: Face): Effect {
    if Reached(a, e, n, f) then Adjust(a[n], add, rem, f) else NOTHING
  }

  function If<T>(b: bool, x: Option<T>): Option<T> { if b then x else None }

  ghost function EmitNewEntry(a: PlainRib, e: Name, r: Route, n: Name, f: Face): Effect {
    var above := Ancestor(a, e, f);
    var own := f == r.face;
    if n == e then
      if own then AddOwn(r.cost)
      else if !r.capture && above.Some? then AddInherited(above.value.cost)
      else NOTHING
    else if r.childInherit && r.capture then Pushed(a, e, If(own, Some(r)), above.Some?, n, f)
    else if r.childInherit then Pushed(a, e, if own then Some(r) else above, false, n, f)
    else if r.capture then Pushed(a, e, None, above.Some?, n, f)
    else NOTHING
  }

  ghost function EmitNewRoute(a: PlainRib, e: Name, nd: Node, r: Route, captureOn: bool, n: Name, f: Face): Effect {
    var above := Ancestor(a, e, f);
    var own := f == r.face;
    var prev := Cheapest(nd.routes, r.face, true);
    var lowest := Cheapest(nd.routes, r.face, false);
    if n == e then
      Then(if captureOn && above.Some? && f in nd.inh then DROP_INHERITED else NOTHING,
           if own && (lowest.None? || r.cost <= lowest.value.cost) then AddOwn(r.cost) else NOTHING)
    else
      Pushed(a, e, If(own && r.childInherit && (prev.None? || r.cost <= prev.value.cost), Some(r)),
             captureOn && above.Some?, n, f)
  }

  /** The updater dereferences `prev` in one branch without testing it; this rules that branch out. */
  predicate UpdatedRouteIsDefined(nd: Node, r: Route, old_: Route) {
    var lowest := Cheapest(nd.routes, r.face, false);
    lowest.Some? && (r.cost > lowest.value.cost && old_.cost < lowest.value.cost ==>
                       Cheapest(nd.routes, r.face, true).Some?)
  }

  /** In the three parts below, `nd` is the copy of the entry in which `r` has already replaced `old_`.
      First part: the cost at the entry itself. */
  function UpdatedCost(e: Name, nd: Node, r: Route, old_: Route, n: Name, f: Face): Effect
    requires UpdatedRouteIsDefined(nd, r, old_)
  {
    var lowest := Cheapest(nd.routes, r.face, false).value;
    if n != e || f != r.face || r.cost == old_.cost then NOTHING
    else if r.cost <= lowest.cost then AddOwn(r.cost)
    else if old_.cost < lowest.cost then AddOwn(Cheapest(nd.routes, r.face, true).value.cost)
    else NOTHING
  }

  /** Second part: child-inherit turned on or off. */
  ghost function UpdatedInherit(a: PlainRib, e: Name, nd: Node, r: Route, old_: Route, n: Name, f: Face): Effect {
    var own := f == r.face;
    var prev := Cheapest(nd.routes, r.face, true);
    if !old_.childInherit && r.childInherit then
      Pushed(a, e, If(own && (prev.None? || r.cost <= prev.value.cost), Some(r)), false, n, f)
    else if old_.childInherit && !r.childInherit then
      Pushed(a, e, If(own, if prev.Some? then prev else Ancestor(a, e, f)), own, n, f)
    else NOTHING
  }

  /** Third part: capture turned on or off. */
  ghost function UpdatedCapture(a: PlainRib, e: Name, nd: Node, r: Route, old_: Route, n: Name, f: Face): Effect {
    var above := Ancestor(a, e, f);
    if !old_.capture && r.capture then
      if n == e then (if above.Some? && f in nd.inh then DROP_INHERITED else NOTHING)
      else Pushed(a, e, None, above.Some?, n, f)
    else if old_.capture && !r.capture then
      if n == e then (if above.Some? && !HasFace(nd.routes, f) then AddInherited(above.value.cost) else NOTHING)
      else Pushed(a, e, above, false, n, f)
    else NOTHING
  }

  /** Only the cost of a child-inheriting route changed, and entries below must see it. */
  predicate OnlyCostPassedDown(nd: Node, r: Route, old_: Route) {
    var prev := Cheapest(nd.routes, r.face, true);
    r.cost != old_.cost && (prev.None? || r.cost <= prev.value.cost) && SameFlags(r, old_) && r.childInherit
  }

  ghost function EmitUpdatedRoute(a: PlainRib, e: Name, nd: Node, r: Route, old_: Route, n: Name, f: Face): Effect
    requires UpdatedRouteIsDefined(nd, r, old_)
  {
    if SameFlags(r, old_) && r.cost == old_.cost then NOTHING
    else if OnlyCostPassedDown(nd, r, old_) then
      Then(UpdatedCost(e, nd, r, old_, n, f), Pushed(a, e, If(f == r.face, Some(r)), false, n, f))
    else
      Then(Then(UpdatedCost(e, nd, r, old_, n, f), UpdatedInherit(a, e, nd, r, old_, n, f)),
           UpdatedCapture(a, e, nd, r, old_, n, f))
  }

  /** `nd` is the copy of the entry from which `r` has already been erased. */
  ghost function EmitErasedRoute(a: PlainRib, e: Name, nd: Node, r: Route, captureOff: bool, n: Name, f: Face): Effect {
    var own := f == r.face;
    var above := Ancestor(a, e, f);
    var back := captureOff && |nd.routes| != 0;
    if n == e then
      var handBack := if r.capture && back && above.Some? && !HasFace(nd.routes, f)
                      then AddInherited(above.value.cost) else NOTHING;
      var unblocked := if own && !HasCapture(nd) && |nd.routes| != 0 && above.Some?
                       then AddInherited(above.value.cost) else NOTHING;
      Then(Then(if own then DROP_OWN else NOTHING, handBack), unblocked)
    else if r.childInherit && r.capture then Pushed(a, e, If(back, above), own, n, f)
    else if r.childInherit then Pushed(a, e, If(!HasCapture(nd), above), own, n, f)
    else if r.capture then Pushed(a, e, If(back, above), false, n, f)
    else NOTHING
  }

  ghost function EmitErasedEntry(e: Name, nd: Node, n: Name, f: Face): Effect {
    if n == e && f in nd.inh then DROP_OWN else NOTHING
  }

  ghost function EmitRegister(a: PlainRib, e: Name, r: Route, n: Name, f: Face): Effect
    requires IsDefined(a, RibUpdate(Register, e, r))
  {
    if e !in a then EmitNewEntry(a, e, r, n, f)
    else
      var nd := a[e];
      var i := IndexOf(nd.routes, r);
      if i == |nd.routes| then EmitNewRoute(a, e, nd, r, !HasCapture(nd) && r.capture, n, f)
      else EmitUpdatedRoute(a, e, nd.(routes := nd.routes[i := r]), r, nd.routes[i], n, f)
  }

  ghost function EmitUnregister(a: PlainRib, e: Name, r: Route, n: Name, f: Face): Effect {
    if e !in a || IndexOf(a[e].routes, r) == |a[e].routes| then NOTHING
    else
      var nd := a[e];
      var i := IndexOf(nd.routes, r);
      var temp := EraseAt(nd, i);
      var next := SecondCheapest(nd.routes, r.face);
      Then(Then(EmitErasedRoute(a, e, temp, nd.routes[i], HasCapture(nd) && !HasCapture(temp), n, f),
                if next.Some? then EmitNewRoute(a, e, temp, next.value, false, n, f) else NOTHING),
           if |nd.routes| == 1 then EmitErasedEntry(e, nd, n, f) else NOTHING)
  }

  predicate IsDefined(a: PlainRib, u: RibUpdate) {
    u.action == Register && u.name in a ==>
      var nd := a[u.name];
      var i := IndexOf(nd.routes, u.route);
      i < |nd.routes| ==> UpdatedRouteIsDefined(nd.(routes := nd.routes[i := u.route]), u.route, nd.routes[i])
  }

  ghost function Emitted(a: PlainRib, u: RibUpdate, n: Name, f: Face): Effect
    requires IsDefined(a, u)
  {
    match u.action
    case Register => EmitRegister(a, u.name, u.route, n, f)
    case Unregister => EmitUnregister(a, u.name, u.route, n, f)
    case RemoveFace =>
      // updates for the destroyed face are dropped; the inherited records are not
      var x := EmitUnregister(a, u.name, u.route, n, f);
      if f == u.route.face then Effect(None, x.inh) else x
  }

  // ---- One step of the RIB and of the FIB ----

  type Fib = map<(Name, Face), nat>

  function Look(fib: Fib, n: Name, f: Face): Option<nat> {
    if (n, f) in fib then Some(fib[(n, f)]) else None
  }

  function Apply(act: Option<Act>, was: Option<nat>): Option<nat> {
    match act
    case None => was
    case Some(Add(c)) => Some(c)
    case Some(Remove) => None
  }

  /** The RIB after inserting or erasing the route, before the inherited records change. */
  function Edit(a: PlainRib, u: RibUpdate): PlainRib {
    var e, r := u.name, u.route;
    if u.action == Register then
      if e !in a then a[e := InsertRoute(Node([], 0, {}), r)]
      else
        var i := IndexOf(a[e].routes, r);
        if i == |a[e].routes| then a[e := InsertRoute(a[e], r)]
        else a[e := a[e].(routes := a[e].routes[i := r])]
    else if e !in a || IndexOf(a[e].routes, r) == |a[e].routes| then a
    else
      var nd := EraseAt(a[e], IndexOf(a[e].routes, r));
      if nd.routes == [] then a - {e} else a[e := nd]
  }

  predicate SameRoutes(a: PlainRib, b: PlainRib) {
    a.Keys == b.Keys && forall n | n in a :: a[n].routes == b[n].routes && a[n].nCapture == b[n].nCapture
  }

  predicate RecordAfter(x: Option<bool>, was: bool) { if x.Some? then x.value else was }

  ghost predicate RibStep(a: PlainRib, u: RibUpdate, b: PlainRib)
    requires IsDefined(a, u)
  {
    && SameRoutes(Edit(a, u), b)
    && forall n, f | n in b :: f in b[n].inh <==> RecordAfter(Emitted(a, u, n, f).inh, n in a && f in a[n].inh)
  }

  ghost predicate FibStep(a: PlainRib, u: RibUpdate, fib: Fib, fib': Fib)
    requires IsDefined(a, u)
  {
    forall n, f :: Look(fib', n, f) == Apply(Emitted(a, u, n, f).fib, Look(fib, n, f))
  }
}
