/** What the queries of the specification mean, said without recursion. */
module RibLaws {
  import opened Options
  import opened Names
  import opened RibSpec
  import opened FibTheory

  predicate InheritsAt(rs: seq<Route>, f: Face, i: nat)
    requires i < |rs|
  {
    rs[i].face == f && rs[i].childInherit
  }

  /** The first inheriting route is the one at the lowest position. */
  lemma {:induction false} FirstIsFirst(rs: seq<Route>, f: Face) returns (i: nat)
    requires InheritsOn(rs, f)
    ensures i < |rs| && InheritsAt(rs, f, i) && FirstInherited(rs, f) == Some(rs[i])
    ensures forall j | 0 <= j < i :: !InheritsAt(rs, f, j)
  {
    var k := |rs| - 1;
    if InheritsOn(rs[..k], f) {
      i := FirstIsFirst(rs[..k], f);
      assert forall j | 0 <= j < i :: InheritsAt(rs, f, j) ==> InheritsAt(rs[..k], f, j);
    } else {
      i := k;
      assert forall j | 0 <= j < k :: rs[..k][j] == rs[j];
    }
  }

  predicate Candidate(rs: seq<Route>, f: Face, ci: bool, i: nat)
    requires i < |rs|
  {
    rs[i].face == f && (ci ==> rs[i].childInherit)
  }

  /** The cheapest route is the one at the lowest position among those of the least cost. */
  lemma {:induction false} CheapestIsFirst(rs: seq<Route>, f: Face, ci: bool) returns (i: nat)
    requires Cheapest(rs, f, ci).Some?
    ensures i < |rs| && Candidate(rs, f, ci, i) && Cheapest(rs, f, ci) == Some(rs[i])
    ensures forall j | 0 <= j < |rs| && Candidate(rs, f, ci, j) :: rs[i].cost <= rs[j].cost
    ensures forall j | 0 <= j < i && Candidate(rs, f, ci, j) :: rs[i].cost < rs[j].cost
  {
    var k := |rs| - 1;
    var c := Cheapest(rs[..k], f, ci);
    if c.Some? && Cheapest(rs, f, ci) == c {
      i := CheapestIsFirst(rs[..k], f, ci);
      assert forall j | 0 <= j < k :: rs[..k][j] == rs[j];
    } else {
      i := k;
      assert forall j | 0 <= j < k && Candidate(rs, f, ci, j) :: rs[..k][j] == rs[j];
    }
  }

  lemma {:induction false} CountOnFace(rs: seq<Route>, f: Face, y: Route)
    ensures Count(OnFace(rs, f), y) == if y.face == f then Count(rs, y) else 0
  {
    if rs != [] {
      CountOnFace(rs[..|rs| - 1], f, y);
      assert rs == rs[..|rs| - 1] + [rs[|rs| - 1]];
    }
  }

  /** Take one cheapest route of a face away: the second cheapest is a cheapest one of the rest. */
  lemma {:induction false} SecondIsCheapestOfRest(rs: seq<Route>, f: Face)
    requires SecondCheapest(rs, f).Some?
    ensures Cheapest(rs, f, false).Some?
    ensures var c, s := Cheapest(rs, f, false).value, SecondCheapest(rs, f).value;
      && s.face == f && Count(rs, s) > (if s == c then 1 else 0)
      && forall y: Route | y.face == f && Count(rs, y) > (if y == c then 1 else 0) :: s.cost <= y.cost
  {
    var m := OnFace(rs, f);
    LookupsOnFace(rs, f);
    var c, s := Cheapest(m, f, false).value, SecondCheapest(rs, f).value;
    var w := Without(m, c);
    WithoutKeeps(m, c);
    CountMeansIn(w, s);
    CountOnFace(rs, f, s);
    forall y: Route | y.face == f && Count(rs, y) > (if y == c then 1 else 0) ensures s.cost <= y.cost {
      CountOnFace(rs, f, y);
      CountMeansIn(w, y);
    }
  }

  /** Between the prefixes of length `k` and `n`, nothing passes a route of its own or captures. */
  ghost predicate NothingNearer(a: PlainRib, n: Name, k: nat, f: Face) {
    forall j | k < j < |n| :: OpenAt(a, n[..j], f)
  }

  predicate PassesDown(a: PlainRib, m: Name, f: Face, r: Route) { m in a && FirstInherited(a[m].routes, f) == Some(r) }

  /** The ancestor route comes from the nearest strict prefix that passes one on the face, if nothing
      nearer captures. */
  lemma {:induction false} AncestorIsNearest(a: PlainRib, n: Name, f: Face, r: Route)
    ensures Ancestor(a, n, f) == Some(r) <==>
            exists k :: 0 <= k < |n| && PassesDown(a, n[..k], f, r) && NothingNearer(a, n, k, f)
  {
    if Ancestor(a, n, f) == Some(r) {
      var k := AboveComesFrom(a, n, |n|, f, r);
    }
    if k :| 0 <= k < |n| && PassesDown(a, n[..k], f, r) && NothingNearer(a, n, k, f) {
      AboveReaches(a, n, |n|, k, f, r);
    }
  }

  lemma {:induction false} AboveComesFrom(a: PlainRib, n: Name, m: nat, f: Face, r: Route) returns (k: nat)
    requires m <= |n| && Above(a, n, m, f) == Some(r)
    ensures k < m && n[..k] in a && FirstInherited(a[n[..k]].routes, f) == Some(r)
    ensures forall j | k < j < m :: OpenAt(a, n[..j], f)
  {
    var p := n[..m - 1];
    if p in a && FirstInherited(a[p].routes, f).Some? {
      k := m - 1;
    } else {
      k := AboveComesFrom(a, n, m - 1, f, r);
      assert OpenAt(a, n[..m - 1], f);
    }
  }

  lemma {:induction false} AboveReaches(a: PlainRib, n: Name, m: nat, k: nat, f: Face, r: Route)
    requires k < m <= |n| && n[..k] in a && FirstInherited(a[n[..k]].routes, f) == Some(r)
    requires forall j | k < j < m :: OpenAt(a, n[..j], f)
    ensures Above(a, n, m, f) == Some(r)
  {
    if k < m - 1 {
      assert OpenAt(a, n[..m - 1], f);
      AboveReaches(a, n, m - 1, k, f, r);
    }
  }

  /** The from-scratch FIB: on a face of its own an entry has the least cost there; on any other face a
      capturing entry has nothing, and the rest have what the ancestor route costs. */
  lemma {:induction false} WantMeans(a: PlainRib, n: Name, f: Face)
    ensures n !in a ==> Want(a, n, f) == None
    ensures n in a && HasFace(a[n].routes, f) ==>
      var rs := a[n].routes;
      && Want(a, n, f).Some? && (exists i :: 0 <= i < |rs| && rs[i].face == f && rs[i].cost == Want(a, n, f).value)
      && forall i | 0 <= i < |rs| && rs[i].face == f :: Want(a, n, f).value <= rs[i].cost
    ensures n in a && !HasFace(a[n].routes, f) && a[n].nCapture > 0 ==> Want(a, n, f) == None
    ensures n in a && !HasFace(a[n].routes, f) && a[n].nCapture == 0 ==>
      Want(a, n, f) == if Ancestor(a, n, f).None? then None else Some(Ancestor(a, n, f).value.cost)
  {
    if n in a {
      FaceFound(a[n].routes, f);
      if HasFace(a[n].routes, f) {
        var c := Cheapest(a[n].routes, f, false).value;
        var i :| 0 <= i < |a[n].routes| && a[n].routes[i] == c;
      }
    }
  }

  // ---- What inserting and erasing do to the routes ----

  /** A route is identified within its entry by face and origin. */
  predicate SameRoute(x: Route, r: Route) { x.face == r.face && x.origin == r.origin }

  predicate RoutesDiffer(rs: seq<Route>) { forall i, j | 0 <= i < j < |rs| :: !SameRoute(rs[i], rs[j]) }

  ghost predicate AllDiffer(a: PlainRib) { forall n | n in a :: RoutesDiffer(a[n].routes) }

  function RoutesAt(a: PlainRib, n: Name): seq<Route> { if n in a then a[n].routes else [] }

  /** The routes that are not `r`, in their order. */
  function Others(rs: seq<Route>, r: Route): seq<Route> {
    if rs == [] then []
    else Others(rs[..|rs| - 1], r) + if SameRoute(rs[|rs| - 1], r) then [] else [rs[|rs| - 1]]
  }

  lemma {:induction false} OthersAre(rs: seq<Route>, r: Route, x: Route)
    ensures x in Others(rs, r) <==> x in rs && !SameRoute(x, r)
  {
    if rs != [] {
      OthersAre(rs[..|rs| - 1], r, x);
      assert rs == rs[..|rs| - 1] + [rs[|rs| - 1]];
    }
  }

  lemma {:induction false} OthersSplit(rs: seq<Route>, ss: seq<Route>, r: Route)
    ensures Others(rs + ss, r) == Others(rs, r) + Others(ss, r)
  {
    if ss == [] {
      assert rs + ss == rs;
    } else {
      assert (rs + ss)[..|rs + ss| - 1] == rs + ss[..|ss| - 1];
      OthersSplit(rs, ss[..|ss| - 1], r);
    }
  }

  lemma {:induction false} OthersOfStrangers(rs: seq<Route>, r: Route)
    requires forall x | x in rs :: !SameRoute(x, r)
    ensures Others(rs, r) == rs
  {
    if rs != [] {
      OthersOfStrangers(rs[..|rs| - 1], r);
    }
  }

  /** Erasing the route found takes out that one and keeps the order of the rest. */
  lemma {:induction false} ErasedAreOthers(rs: seq<Route>, r: Route)
    requires RoutesDiffer(rs) && IndexOf(rs, r) < |rs|
    ensures var i := IndexOf(rs, r);
      rs[..i] + rs[i + 1..] == Others(rs, r) && RoutesDiffer(rs[..i] + rs[i + 1..])
  {
    var i := IndexOf(rs, r);
    OthersAt(rs, i, r);
    forall x | x in rs[..i] ensures !SameRoute(x, r) {
      var j :| 0 <= j < i && rs[..i][j] == x;
      assert rs[j] == x;
    }
    forall x | x in rs[i + 1..] ensures !SameRoute(x, r) {
      var j :| 0 <= j < |rs| - i - 1 && rs[i + 1..][j] == x;
      assert rs[i + 1 + j] == x;
    }
    OthersOfStrangers(rs[..i], r);
    OthersOfStrangers(rs[i + 1..], r);
    StayDifferent(rs, i);
  }

  lemma {:induction false} OthersAt(rs: seq<Route>, i: nat, r: Route)
    requires i < |rs| && SameRoute(rs[i], r)
    ensures Others(rs, r) == Others(rs[..i], r) + Others(rs[i + 1..], r)
  {
    OthersSplit(rs[..i], [rs[i]], r);
    OthersSplit(rs[..i] + [rs[i]], rs[i + 1..], r);
    assert rs == (rs[..i] + [rs[i]]) + rs[i + 1..];
    assert Others([rs[i]], r) == [];
  }

  lemma {:induction false} StayDifferent(rs: seq<Route>, i: nat)
    requires RoutesDiffer(rs) && i < |rs|
    ensures RoutesDiffer(rs[..i] + rs[i + 1..])
  {
    var ss := rs[..i] + rs[i + 1..];
    assert forall j | 0 <= j < |ss| :: ss[j] == rs[if j < i then j else j + 1];
  }

  /** A known route is overwritten in place, a new one goes to the end. */
  predicate InsertedInto(was: seq<Route>, now: seq<Route>, r: Route) {
    if exists i :: 0 <= i < |was| && SameRoute(was[i], r)
    then |now| == |was| && forall i | 0 <= i < |was| :: now[i] == if SameRoute(was[i], r) then r else was[i]
    else now == was + [r]
  }

  lemma {:induction false} InsertedLaw(was: seq<Route>, now: seq<Route>, r: Route)
    requires RoutesDiffer(was)
    requires var i := IndexOf(was, r); now == if i == |was| then was + [r] else was[i := r]
    ensures InsertedInto(was, now, r) && RoutesDiffer(now)
    ensures forall x :: x in now <==> x == r || (x in was && !SameRoute(x, r))
  {
    var i := IndexOf(was, r);
    if i < |was| {
      assert SameRoute(was[i], r);
      forall x ensures x in now <==> x == r || (x in was && !SameRoute(x, r)) {
        if x in was && !SameRoute(x, r) {
          var j :| 0 <= j < |was| && was[j] == x;
          assert now[j] == x;
        }
        assert now[i] == r;
      }
    }
  }

  predicate Holds(a: PlainRib, n: Name, x: Route) { x in RoutesAt(a, n) }

  /** Registering stores exactly the given route under its name, in place of one with its face and
      origin, and touches no other route anywhere. */
  lemma {:induction false} RegisterLaw(a: PlainRib, n: Name, r: Route)
    requires AllDiffer(a)
    ensures var b := Edit(a, RibUpdate(Register, n, r));
      && AllDiffer(b) && b.Keys == a.Keys + {n} && InsertedInto(RoutesAt(a, n), RoutesAt(b, n), r)
      && (forall m | m in a && m != n :: b[m] == a[m])
      && (forall m, x :: Holds(b, m, x) <==> (m == n && x == r) || (Holds(a, m, x) && !(m == n && SameRoute(x, r))))
  {
    InsertedLaw(RoutesAt(a, n), RoutesAt(Edit(a, RibUpdate(Register, n, r)), n), r);
  }

  /** Erasing takes exactly the route with the given face and origin away from its name, keeps the order
      of the others there, and drops the name if none is left. */
  lemma {:induction false} UnregisterLaw(a: PlainRib, n: Name, r: Route)
    requires AllDiffer(a)
    ensures var b := Edit(a, RibUpdate(Unregister, n, r));
      && AllDiffer(b) && (forall m | m != n :: m in a <==> m in b) && RoutesAt(b, n) == Others(RoutesAt(a, n), r)
      && (n in a && (exists x :: Holds(a, n, x) && SameRoute(x, r)) ==> (n in b <==> RoutesAt(b, n) != []))
      && (forall m | m in a && m != n :: b[m] == a[m])
      && (forall m, x :: Holds(b, m, x) <==> Holds(a, m, x) && !(m == n && SameRoute(x, r)))
  {
    var b := Edit(a, RibUpdate(Unregister, n, r));
    ErasedLaw(RoutesAt(a, n), RoutesAt(b, n), r);
    forall m | m in b ensures RoutesDiffer(b[m].routes) {
      assert m != n ==> b[m] == a[m];
    }
  }

  lemma {:induction false} ErasedLaw(was: seq<Route>, now: seq<Route>, r: Route)
    requires RoutesDiffer(was)
    requires var i := IndexOf(was, r); now == if i == |was| then was else was[..i] + was[i + 1..]
    ensures now == Others(was, r) && RoutesDiffer(now)
    ensures forall x :: x in now <==> x in was && !SameRoute(x, r)
  {
    if IndexOf(was, r) < |was| {
      ErasedAreOthers(was, r);
    } else {
      OthersOfStrangers(was, r);
    }
    forall x ensures x in Others(was, r) <==> x in was && !SameRoute(x, r) {
      OthersAre(was, r, x);
    }
  }
}
