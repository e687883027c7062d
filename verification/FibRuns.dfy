/** Steps and whole runs: when the incremental FIB is the from-scratch FIB. */
module FibRuns {
  import opened Options
  import opened Components
  import opened Names
  import opened RibSpec
  import opened FibTheory
  import opened FibSteps
  import opened CaptureCounter

  /** MAIN STEP THEOREM. From every state whose FIB and inherited records are the from-scratch ones, a
      registration or unregistration leads to such a state if and only if `Keeps` holds of the RIB and
      the update. Entries may hold any number of routes, with any flags. */
  lemma {:induction false} StepIsExact(a: PlainRib, fib: Fib, u: RibUpdate, b: PlainRib, fib': Fib)
    requires u.action != RemoveFace && IsDefined(a, u)
    requires Consistent(a, fib) && RibStep(a, u, b) && FibStep(a, u, fib, fib')
    ensures Consistent(b, fib') <==> Keeps(a, u)
  {
    PointwiseStep(a, fib, u, b, fib');
    AllRightIsKeeps(a, u, b);
  }

  /** Counters included: from a consistent state whose capture counters count the capturing routes, a
      step leads to another one if and only if `Keeps` holds and no overwritten route changes its
      capture flag. In such states an entry captures exactly when one of its routes does. */
  lemma {:induction false} CountedStepIsExact(a: PlainRib, fib: Fib, u: RibUpdate, b: PlainRib, fib': Fib)
    requires u.action != RemoveFace && IsDefined(a, u) && CountersOk(a)
    requires Consistent(a, fib) && RibStep(a, u, b) && FibStep(a, u, fib, fib')
    ensures Consistent(b, fib') && CountersOk(b) <==> Keeps(a, u) && KeepsCaptureBit(a, u)
    ensures CountersOk(b) ==> forall n | n in b :: HasCapture(b[n]) <==> exists r :: r in b[n].routes && r.capture
  {
    StepIsExact(a, fib, u, b, fib');
    StepKeepsCounters(a, u);
    assert CountersOk(b) <==> CountersOk(Edit(a, u));
    if CountersOk(b) {
      forall n | n in b ensures HasCapture(b[n]) <==> exists r :: r in b[n].routes && r.capture {
        CountTells(b[n]);
      }
    }
  }

  // ---- Runs ----

  datatype State = State(rib: PlainRib, fib: Fib)

  ghost predicate Step(s: State, u: RibUpdate, t: State) {
    u.action != RemoveFace && IsDefined(s.rib, u) && RibStep(s.rib, u, t.rib) && FibStep(s.rib, u, s.fib, t.fib)
  }

  ghost predicate Run(ss: seq<State>, us: seq<RibUpdate>) {
    |ss| == |us| + 1 && forall i | 0 <= i < |us| :: Step(ss[i], us[i], ss[i + 1])
  }

  ghost predicate Good(s: State) { Consistent(s.rib, s.fib) }

  ghost predicate GoodAt(ss: seq<State>, i: nat) { i < |ss| && Good(ss[i]) }

  ghost predicate KeepsAt(ss: seq<State>, us: seq<RibUpdate>, i: nat) {
    i < |us| && i < |ss| && Keeps(ss[i].rib, us[i])
  }

  lemma {:induction false} StepAt(ss: seq<State>, us: seq<RibUpdate>, i: nat)
    requires Run(ss, us) && i < |us| && GoodAt(ss, i)
    ensures GoodAt(ss, i + 1) <==> KeepsAt(ss, us, i)
  {
    assert Step(ss[i], us[i], ss[i + 1]);
    StepIsExact(ss[i].rib, ss[i].fib, us[i], ss[i + 1].rib, ss[i + 1].fib);
  }

  ghost predicate AllGood(ss: seq<State>, k: nat) { forall i | 0 <= i <= k :: GoodAt(ss, i) }

  ghost predicate AllKeep(ss: seq<State>, us: seq<RibUpdate>, k: nat) { forall i | 0 <= i < k :: KeepsAt(ss, us, i) }

  lemma {:induction false} OneMore(ss: seq<State>, us: seq<RibUpdate>, k: nat)
    ensures AllGood(ss, k + 1) <==> AllGood(ss, k) && GoodAt(ss, k + 1)
    ensures AllKeep(ss, us, k + 1) <==> AllKeep(ss, us, k) && KeepsAt(ss, us, k)
  {
  }

  lemma {:induction false} RunPrefix(ss: seq<State>, us: seq<RibUpdate>, k: nat)
    requires Run(ss, us) && Good(ss[0]) && k <= |us|
    ensures AllGood(ss, k) <==> AllKeep(ss, us, k)
  {
    if k > 0 {
      RunPrefix(ss, us, k - 1);
      PrefixNext(ss, us, k - 1);
    } else {
      assert GoodAt(ss, 0);
    }
  }

  lemma {:induction false} PrefixNext(ss: seq<State>, us: seq<RibUpdate>, k: nat)
    requires Run(ss, us) && k < |us| && (AllGood(ss, k) <==> AllKeep(ss, us, k))
    ensures AllGood(ss, k + 1) <==> AllKeep(ss, us, k + 1)
  {
    OneMore(ss, us, k);
    if AllGood(ss, k) {
      StepAt(ss, us, k);
    }
  }

  /** Every run from a consistent state is consistent throughout if and only if every step meets `Keeps`. */
  lemma {:induction false} RunIsExact(ss: seq<State>, us: seq<RibUpdate>)
    requires Run(ss, us) && Good(ss[0])
    ensures (forall i | 0 <= i <= |us| :: GoodAt(ss, i)) <==> (forall i | 0 <= i < |us| :: KeepsAt(ss, us, i))
  {
    RunPrefix(ss, us, |us|);
  }

  const EMPTY := State(map[], map[])

  lemma {:induction false} EmptyIsGood()
    ensures Good(EMPTY)
  {
  }

  /** The everyday updates: one route per name; a capturing route is registered but never changed or
      erased; a re-registration may change the cost, or toggle child-inherit on a non-capturing route. */
  predicate Everyday(a: PlainRib, u: RibUpdate) {
    var e, r := u.name, u.route;
    && (forall n | n in a :: |a[n].routes| == 1)
    && (e in a ==>
          var x := a[e].routes[0];
          if u.action == Register
          then IndexOf(a[e].routes, r) == 0 && r.capture == x.capture && r.otherFlags == x.otherFlags
            && (x.capture ==> r.childInherit == x.childInherit)
          else IndexOf(a[e].routes, r) == 0 ==> !x.capture)
  }

  /** A sufficient condition that needs no search below the entry. */
  lemma {:induction false} EverydayKeeps(a: PlainRib, u: RibUpdate)
    requires Everyday(a, u) && CountersOk(a)
    ensures Keeps(a, u)
  {
    if u.name in a {
      var nd := a[u.name];
      var x := nd.routes[0];
      assert nd.routes == [x] && [x][..0] == [];
      assert CountCapture(nd.routes) == CountCapture([]) + (if x.capture then 1 else 0);
      if IndexOf(nd.routes, u.route) == 0 {
        if u.action == Register {
          OverwriteKeeps(a, u, nd, x);
        } else {
          EraseKeeps(a, u, nd, x);
        }
      }
    }
  }

  lemma {:induction false} OverwriteKeeps(a: PlainRib, u: RibUpdate, nd: Node, x: Route)
    requires Everyday(a, u) && u.action == Register && u.name in a && a[u.name] == nd && nd.routes == [x]
    requires IndexOf(nd.routes, u.route) == 0 && (HasCapture(nd) <==> x.capture)
    ensures Keeps(a, u)
  {
    var e, r := u.name, u.route;
    assert nd.routes[0 := r] == [r];
    forall f: Face ensures UpdatedSelfOk(a, e, nd, 0, r, f) && UpdatedBelowOk(a, e, nd, 0, r, f) {
      SingleLookups(r, f);
      SingleLookups(x, f);
      FaceFound([r], r.face);
    }
  }

  lemma {:induction false} EraseKeeps(a: PlainRib, u: RibUpdate, nd: Node, x: Route)
    requires Everyday(a, u) && u.action != Register && u.name in a && a[u.name] == nd && nd.routes == [x]
    requires IndexOf(nd.routes, u.route) == 0 && (HasCapture(nd) <==> x.capture)
    ensures Keeps(a, u)
  {
    var e := u.name;
    assert [x][..0] + [x][1..] == [] && EraseAt(nd, 0).routes == [];
    SecondExists([x], 0);
    forall f: Face ensures ErasedSelfOk(a, e, nd, 0, f) && ErasedBelowOk(a, e, nd, 0, f) {}
  }

  lemma {:induction false} EverydayCounters(a: PlainRib, u: RibUpdate, b: PlainRib)
    requires Everyday(a, u) && CountersOk(a) && SameRoutes(Edit(a, u), b)
    ensures CountersOk(b)
  {
    StepKeepsCounters(a, u);
  }

  /** Every run of everyday updates from an empty RIB keeps the FIB equal to the from-scratch FIB. */
  lemma {:induction false} EverydayRuns(ss: seq<State>, us: seq<RibUpdate>)
    requires Run(ss, us) && ss[0] == EMPTY
    requires forall i | 0 <= i < |us| :: Everyday(ss[i].rib, us[i])
    ensures forall i | 0 <= i < |ss| :: Good(ss[i]) && CountersOk(ss[i].rib)
  {
    EmptyIsGood();
    if us != [] {
      var k := |us| - 1;
      EverydayRuns(ss[..k + 1], us[..k]);
      assert Good(ss[..k + 1][k]) && CountersOk(ss[..k + 1][k].rib);
      EverydayKeeps(ss[k].rib, us[k]);
      EverydayCounters(ss[k].rib, us[k], ss[k + 1].rib);
      StepIsExact(ss[k].rib, ss[k].fib, us[k], ss[k + 1].rib, ss[k + 1].fib);
      forall i | 0 <= i < |ss| ensures Good(ss[i]) && CountersOk(ss[i].rib) {
        if i <= k { assert Good(ss[..k + 1][i]) && CountersOk(ss[..k + 1][i].rib); }
      }
    }
  }

  // ---- Order independence ----

  /** `us` registers exactly the pairs in `m`, each name once. */
  predicate RegistersExactly(us: seq<RibUpdate>, m: map<Name, Route>) {
    && (forall i | 0 <= i < |us| :: us[i].action == Register && us[i].name in m && m[us[i].name] == us[i].route)
    && (forall i, j | 0 <= i < j < |us| :: us[i].name != us[j].name)
    && |us| == |m|
  }

  lemma {:induction false} RegistersButLast(us: seq<RibUpdate>, m: map<Name, Route>)
    requires RegistersExactly(us, m) && us != []
    ensures var k := |us| - 1;
      var m' := m - {us[k].name};
      RegistersExactly(us[..k], m') && m == m'[us[k].name := us[k].route]
  {
    var u := us[|us| - 1];
    var m' := m - {u.name};
    assert m.Keys == m'.Keys + {u.name};
    assert |m'.Keys| == |us| - 1;
  }

  /** One route per name, with its capture flag counted. */
  ghost predicate HoldsExactly(a: PlainRib, m: map<Name, Route>) {
    a.Keys == m.Keys && forall n | n in m :: a[n].routes == [m[n]] && a[n].nCapture == (if m[n].capture then 1 else 0)
  }

  lemma {:induction false} RegisterNext(s: State, u: RibUpdate, t: State, m: map<Name, Route>)
    requires Good(s) && Step(s, u, t) && u.action == Register && u.name !in m && HoldsExactly(s.rib, m)
    ensures Good(t) && HoldsExactly(t.rib, m[u.name := u.route])
  {
    NewNameKeeps(s.rib, u);
    StepIsExact(s.rib, s.fib, u, t.rib, t.fib);
    RegisterEdits(s.rib, u, t.rib, m);
  }

  lemma {:induction false} NewNameKeeps(a: PlainRib, u: RibUpdate)
    requires u.action == Register && u.name !in a
    ensures Keeps(a, u)
  {
  }

  lemma {:induction false} RegisterEdits(a: PlainRib, u: RibUpdate, b: PlainRib, m: map<Name, Route>)
    requires HoldsExactly(a, m) && u.action == Register && u.name !in m && SameRoutes(Edit(a, u), b)
    ensures HoldsExactly(b, m[u.name := u.route])
  {
    assert [] + [u.route] == [u.route];
  }

  lemma {:induction false} RegisterRun(ss: seq<State>, us: seq<RibUpdate>, m: map<Name, Route>)
    requires Run(ss, us) && ss[0] == EMPTY && RegistersExactly(us, m)
    ensures var t := ss[|us|];
      Good(t) && HoldsExactly(t.rib, m)
  {
    EmptyIsGood();
    if us == [] {
      assert m == map[];
    } else {
      var k := |us| - 1;
      var m' := m - {us[k].name};
      RegistersButLast(us, m);
      RegisterRun(ss[..k + 1], us[..k], m');
      assert ss[..k + 1][k] == ss[k];
      RegisterNext(ss[k], us[k], ss[k + 1], m');
    }
  }

  lemma {:induction false} SameRoutesSameState(s: State, t: State)
    requires Good(s) && Good(t) && SameRoutes(s.rib, t.rib)
    ensures s == t
  {
    forall n, f: Face ensures Want(s.rib, n, f) == Want(t.rib, n, f)
      ensures WantInherited(s.rib, n, f) == WantInherited(t.rib, n, f)
    {
      AboveLocal(s.rib, t.rib, n, |n|, f);
    }
    forall n | n in s.rib ensures s.rib[n] == t.rib[n] {
      assert forall f: Face :: f in s.rib[n].inh <==> f in t.rib[n].inh;
    }
    assert s.rib == t.rib;
    forall n, f: Face ensures Look(s.fib, n, f) == Look(t.fib, n, f) {
      assert Look(s.fib, n, f) == Want(s.rib, n, f);
    }
    forall p: (Name, Face) ensures (p in s.fib <==> p in t.fib) && (p in s.fib ==> s.fib[p] == t.fib[p]) {
      assert Look(s.fib, p.0, p.1) == Look(t.fib, p.0, p.1);
    }
  }

  /** Registering the same (name, route) pairs from empty, in any two orders, ends in the same RIB,
      records included, and the same FIB. */
  lemma {:induction false} OrderDoesNotMatter(ss: seq<State>, us: seq<RibUpdate>, ts: seq<State>, vs: seq<RibUpdate>,
      m: map<Name, Route>)
    requires Run(ss, us) && Run(ts, vs) && ss[0] == EMPTY && ts[0] == EMPTY
    requires RegistersExactly(us, m) && RegistersExactly(vs, m)
    ensures ss[|us|] == ts[|vs|]
  {
    RegisterRun(ss, us, m);
    RegisterRun(ts, vs, m);
    SameRoutesSameState(ss[|us|], ts[|vs|]);
  }
}
