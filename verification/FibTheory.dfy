/** Consistency of FIB and inherited records with the from-scratch definition, and what a change at
    one name does to it at the names below. */
module FibTheory {
  import opened Options
  import opened Names
  import opened RibSpec

  // ---- Consistency ----

  ghost predicate RecordsExact(a: PlainRib) {
    forall n, f | n in a :: f in a[n].inh <==> WantInherited(a, n, f)
  }

  ghost predicate FibExact(a: PlainRib, fib: Fib) {
    forall n, f :: Look(fib, n, f) == Want(a, n, f)
  }

  /** Every inherited record is the from-scratch one, and so is the FIB. Entries may hold any number of
      routes, on any faces; what an entry captures is what its counter answers. */
  ghost predicate Consistent(a: PlainRib, fib: Fib) {
    RecordsExact(a) && FibExact(a, fib)
  }

  /** After the effect `x`, the FIB and the record at (n, f) are the from-scratch ones for `b`. */
  ghost predicate RightAt(a: PlainRib, b: PlainRib, x: Effect, n: Name, f: Face) {
    && Apply(x.fib, Want(a, n, f)) == Want(b, n, f)
    && (n in b ==> (RecordAfter(x.inh, WantInherited(a, n, f)) <==> WantInherited(b, n, f)))
  }

  ghost predicate AllRight(a: PlainRib, u: RibUpdate, b: PlainRib)
    requires IsDefined(a, u)
  {
    forall n, f :: RightAt(a, b, Emitted(a, u, n, f), n, f)
  }

  lemma {:induction false} PointwiseStep(a: PlainRib, fib: Fib, u: RibUpdate, b: PlainRib, fib': Fib)
    requires Consistent(a, fib) && IsDefined(a, u) && RibStep(a, u, b) && FibStep(a, u, fib, fib')
    ensures Consistent(b, fib') <==> AllRight(a, u, b)
  {
    if AllRight(a, u, b) {
      forall n, f ensures Look(fib', n, f) == Want(b, n, f)
        ensures n in b ==> (f in b[n].inh <==> WantInherited(b, n, f))
      {
        assert RightAt(a, b, Emitted(a, u, n, f), n, f);
      }
    }
    if Consistent(b, fib') {
      forall n, f ensures RightAt(a, b, Emitted(a, u, n, f), n, f) {
        assert Look(fib', n, f) == Want(b, n, f);
      }
    }
  }

  // ---- Lookups by face ----

  lemma {:induction false} FaceFound(rs: seq<Route>, f: Face)
    ensures HasFace(rs, f) <==> OnFace(rs, f) != []
    ensures HasFace(rs, f) <==> Cheapest(rs, f, false).Some?
    ensures InheritsOn(rs, f) <==> Cheapest(rs, f, true).Some?
  {
    if rs != [] {
      var rest, last := rs[..|rs| - 1], rs[|rs| - 1];
      FaceFound(rest, f);
      if i :| 0 <= i < |rs| && rs[i].face == f && last.face != f {
        assert rest[i].face == f;
      }
      if i :| 0 <= i < |rest| && rest[i].face == f {
        assert rs[i].face == f;
      }
    }
  }

  /** The cheaper of a candidate and one more route, as the queries choose it. */
  function Cheaper(c: Option<Route>, r: Route, f: Face, ci: bool): Option<Route> {
    if r.face == f && (ci ==> r.childInherit) && (c.None? || r.cost < c.value.cost) then Some(r) else c
  }

  lemma {:induction false} LookupsAppend(s: seq<Route>, r: Route, f: Face)
    ensures FirstInherited(s + [r], f) ==
      var c := FirstInherited(s, f); if c.None? && r.face == f && r.childInherit then Some(r) else c
    ensures forall ci :: Cheapest(s + [r], f, ci) == Cheaper(Cheapest(s, f, ci), r, f, ci)
  {
    assert (s + [r])[..|s|] == s;
  }

  /** All lookups on a face look at the routes on that face only. */
  lemma {:induction false} LookupsOnFace(rs: seq<Route>, f: Face)
    ensures FirstInherited(rs, f) == FirstInherited(OnFace(rs, f), f)
    ensures Cheapest(rs, f, true) == Cheapest(OnFace(rs, f), f, true)
    ensures Cheapest(rs, f, false) == Cheapest(OnFace(rs, f), f, false)
  {
    if rs != [] {
      var rest, last := rs[..|rs| - 1], rs[|rs| - 1];
      LookupsOnFace(rest, f);
      var s := OnFace(rest, f);
      if last.face == f {
        LookupsAppend(s, last, f);
      }
    }
  }

  lemma {:induction false} SameOnFace(rs: seq<Route>, ss: seq<Route>, f: Face)
    requires OnFace(rs, f) == OnFace(ss, f)
    ensures HasFace(rs, f) <==> HasFace(ss, f)
    ensures FirstInherited(rs, f) == FirstInherited(ss, f)
    ensures Cheapest(rs, f, true) == Cheapest(ss, f, true) && Cheapest(rs, f, false) == Cheapest(ss, f, false)
  {
    FaceFound(rs, f);
    FaceFound(ss, f);
    LookupsOnFace(rs, f);
    LookupsOnFace(ss, f);
  }

  lemma {:induction false} OnFaceSplit(rs: seq<Route>, ss: seq<Route>, f: Face)
    ensures OnFace(rs + ss, f) == OnFace(rs, f) + OnFace(ss, f)
  {
    if ss == [] {
      assert rs + ss == rs;
    } else {
      assert (rs + ss)[..|rs + ss| - 1] == rs + ss[..|ss| - 1];
      OnFaceSplit(rs, ss[..|ss| - 1], f);
    }
  }

  lemma {:induction false} OnFaceAt(rs: seq<Route>, i: nat, f: Face)
    requires i < |rs|
    ensures OnFace(rs, f) ==
            OnFace(rs[..i], f) + (if rs[i].face == f then [rs[i]] else []) + OnFace(rs[i + 1..], f)
  {
    OnFaceSplit(rs[..i], [rs[i]], f);
    OnFaceSplit(rs[..i] + [rs[i]], rs[i + 1..], f);
    assert rs == (rs[..i] + [rs[i]]) + rs[i + 1..];
    assert [rs[i]][..0] == [];
  }

  /** What is on a face before and after the route at `i` is replaced or erased. */
  lemma {:induction false} OnFaceEdits(rs: seq<Route>, i: nat, r: Route, f: Face)
    requires i < |rs|
    ensures var p, q := OnFace(rs[..i], f), OnFace(rs[i + 1..], f);
      && OnFace(rs, f) == p + (if rs[i].face == f then [rs[i]] else []) + q
      && OnFace(rs[i := r], f) == p + (if r.face == f then [r] else []) + q
      && OnFace(rs[..i] + rs[i + 1..], f) == p + q
  {
    var ss := rs[i := r];
    OnFaceAt(rs, i, f);
    OnFaceAt(ss, i, f);
    assert ss[..i] == rs[..i] && ss[i + 1..] == rs[i + 1..];
    OnFaceSplit(rs[..i], rs[i + 1..], f);
  }

  lemma {:induction false} AppendHasFace(rs: seq<Route>, r: Route, f: Face)
    ensures HasFace(rs + [r], f) <==> HasFace(rs, f) || r.face == f
  {
    assert (rs + [r])[|rs|] == r;
    if i :| 0 <= i < |rs| && rs[i].face == f {
      assert (rs + [r])[i].face == f;
    }
    if i :| 0 <= i < |rs + [r]| && (rs + [r])[i].face == f && r.face != f {
      assert rs[i].face == f;
    }
  }

  /** Replacing a route by one on the same face changes lookups on that face only. */
  lemma {:induction false} ReplaceElsewhere(rs: seq<Route>, i: nat, r: Route, f: Face)
    requires i < |rs| && rs[i].face == r.face
    ensures HasFace(rs[i := r], f) <==> HasFace(rs, f)
    ensures f != r.face ==> FirstInherited(rs[i := r], f) == FirstInherited(rs, f)
    ensures f != r.face ==> Cheapest(rs[i := r], f, true) == Cheapest(rs, f, true)
    ensures f != r.face ==> Cheapest(rs[i := r], f, false) == Cheapest(rs, f, false)
  {
    OnFaceEdits(rs, i, r, f);
    FaceFound(rs, f);
    FaceFound(rs[i := r], f);
    if f != r.face {
      SameOnFace(rs, rs[i := r], f);
    }
  }

  /** The cheapest cost on the face of a replaced route, when the new one is not below the rest. */
  lemma {:induction false} ReplaceCost(rs: seq<Route>, i: nat, r: Route)
    requires i < |rs| && rs[i].face == r.face
    ensures var was, now := Cheapest(rs, r.face, false), Cheapest(rs[i := r], r.face, false);
      && was.Some? && now.Some? && now.value.cost <= r.cost && was.value.cost <= rs[i].cost
      && (rs[i].cost == r.cost ==> was.value.cost == now.value.cost)
      && (now.value.cost < r.cost && now.value.cost <= rs[i].cost ==> was.value.cost == now.value.cost)
  {
    var ss, f := rs[i := r], r.face;
    assert rs[i].face == f && ss[i].face == f;
    var was, now := Cheapest(rs, f, false), Cheapest(ss, f, false);
    var j :| 0 <= j < |rs| && rs[j] == was.value;
    var k :| 0 <= k < |ss| && ss[k] == now.value;
    assert ss[j].face == f && rs[k].face == f;
  }

  lemma {:induction false} EraseElsewhere(rs: seq<Route>, i: nat, f: Face)
    requires i < |rs| && rs[i].face != f
    ensures var ss := rs[..i] + rs[i + 1..];
      && (HasFace(ss, f) <==> HasFace(rs, f))
      && FirstInherited(ss, f) == FirstInherited(rs, f)
      && Cheapest(ss, f, true) == Cheapest(rs, f, true) && Cheapest(ss, f, false) == Cheapest(rs, f, false)
  {
    OnFaceEdits(rs, i, rs[i], f);
    SameOnFace(rs, rs[..i] + rs[i + 1..], f);
  }

  /** A second-cheapest route exists exactly when a route is left on the face of an erased one. */
  lemma {:induction false} SecondExists(rs: seq<Route>, i: nat)
    requires i < |rs|
    ensures SecondCheapest(rs, rs[i].face).Some? <==> HasFace(rs[..i] + rs[i + 1..], rs[i].face)
  {
    var f, ss := rs[i].face, rs[..i] + rs[i + 1..];
    OnFaceEdits(rs, i, rs[i], f);
    FaceFound(rs, f);
    FaceFound(ss, f);
    var m := OnFace(rs, f);
    if |m| >= 2 {
      assert m[0] in m && m[0].face == f;
      var c := Cheapest(m, f, false).value;
      var w := Without(m, c);
      WithoutKeeps(m, c);
      FaceFound(m, f);
      FaceFound(w, f);
      assert w[0] in w && w[0].face == f;
    }
  }

  function Count(rs: seq<Route>, y: Route): nat { multiset(rs)[y] }

  lemma {:induction false} WithoutKeeps(rs: seq<Route>, r: Route)
    requires r in rs
    ensures |Without(rs, r)| == |rs| - 1 && forall x | x in Without(rs, r) :: x in rs
    ensures forall y :: Count(Without(rs, r), y) == Count(rs, y) - if y == r then 1 else 0
  {
    assert rs == [rs[0]] + rs[1..];
    if rs[0] != r {
      var w := Without(rs[1..], r);
      WithoutKeeps(rs[1..], r);
      forall y ensures Count([rs[0]] + w, y) == Count(rs, y) - if y == r then 1 else 0 {
        assert Count(rs, y) == Count([rs[0]], y) + Count(rs[1..], y);
        assert Count(w, y) == Count(rs[1..], y) - if y == r then 1 else 0;
      }
    }
  }

  lemma {:induction false} CountMeansIn(rs: seq<Route>, y: Route)
    ensures Count(rs, y) > 0 <==> y in rs
  {
  }

  /** The routes on the face of an erased route, before and after, by count. */
  lemma {:induction false} LeftOnFace(rs: seq<Route>, i: nat)
    requires i < |rs|
    ensures var x := rs[i];
      var m, left := OnFace(rs, x.face), OnFace(rs[..i] + rs[i + 1..], x.face);
      x in m && forall y :: Count(left, y) == Count(m, y) - if y == x then 1 else 0
  {
    var x := rs[i];
    OnFaceEdits(rs, i, x, x.face);
    var p, q := OnFace(rs[..i], x.face), OnFace(rs[i + 1..], x.face);
    assert (p + [x] + q)[|p|] == x;
  }

  /** The second-cheapest route is never cheaper than the cheapest one left after an erasure, and costs
      the same if the erased route was a cheapest one. */
  lemma {:induction false} SecondCost(rs: seq<Route>, i: nat)
    requires i < |rs| && HasFace(rs[..i] + rs[i + 1..], rs[i].face)
    ensures var next, lowest := SecondCheapest(rs, rs[i].face), Cheapest(rs[..i] + rs[i + 1..], rs[i].face, false);
      && next.Some? && lowest.Some? && next.value.cost >= lowest.value.cost
      && (rs[i].cost <= lowest.value.cost ==> next.value.cost == lowest.value.cost)
  {
    var x, ss := rs[i], rs[..i] + rs[i + 1..];
    SecondExists(rs, i);
    FaceFound(ss, x.face);
    LookupsOnFace(ss, x.face);
    LeftOnFace(rs, i);
    SecondAmong(OnFace(rs, x.face), OnFace(ss, x.face), x);
  }

  lemma {:induction false} SecondAmong(m: seq<Route>, left: seq<Route>, x: Route)
    requires x in m && left != [] && forall y | y in m || y in left :: y.face == x.face
    requires forall y :: Count(left, y) == Count(m, y) - if y == x then 1 else 0
    requires Cheapest(m, x.face, false).Some? && Cheapest(left, x.face, false).Some?
    ensures var c := Cheapest(m, x.face, false).value;
      var next, lowest := Cheapest(Without(m, c), x.face, false), Cheapest(left, x.face, false).value;
      next.Some? ==> next.value.cost >= lowest.cost && (x.cost <= lowest.cost ==> next.value.cost == lowest.cost)
  {
    var c, lowest := Cheapest(m, x.face, false).value, Cheapest(left, x.face, false).value;
    var w := Without(m, c);
    WithoutKeeps(m, c);
    var next := Cheapest(w, x.face, false);
    if next.Some? {
      forall y ensures (Count(w, y) > 0 <==> y in w) && (Count(left, y) > 0 <==> y in left)
        ensures Count(m, y) > 0 <==> y in m
      {
        CountMeansIn(w, y);
        CountMeansIn(left, y);
        CountMeansIn(m, y);
      }
      assert lowest in m && next.value in m && c.cost <= lowest.cost && c.cost <= next.value.cost;
      if c != x {
        assert x in w && c in left;
      } else {
        assert next.value in left && lowest in w;
      }
    }
  }

  // ---- A change at one name, seen from elsewhere ----

  /** `a` and `b` hold the same routes at `m`. */
  predicate AgreeAt(a: PlainRib, b: PlainRib, m: Name) {
    (m in a <==> m in b) && (m in a ==> a[m].routes == b[m].routes && a[m].nCapture == b[m].nCapture)
  }

  ghost predicate AgreeExceptAt(a: PlainRib, b: PlainRib, e: Name) { forall m | m != e :: AgreeAt(a, b, m) }

  lemma {:induction false} AboveLocal(a: PlainRib, b: PlainRib, n: Name, k: nat, f: Face)
    requires k <= |n| && forall j | 0 <= j < k :: AgreeAt(a, b, n[..j])
    ensures Above(a, n, k, f) == Above(b, n, k, f)
  {
    if k > 0 {
      AboveLocal(a, b, n, k - 1, f);
      assert AgreeAt(a, b, n[..k - 1]);
    }
  }

  lemma {:induction false} AbovePrefix(a: PlainRib, e: Name, n: Name, k: nat, f: Face)
    requires e <= n && k <= |e|
    ensures Above(a, e, k, f) == Above(a, n, k, f)
  {
    if k > 0 {
      assert e[..k - 1] == n[..k - 1];
      AbovePrefix(a, e, n, k - 1, f);
    }
  }

  /** No entry strictly between `e` and `n` stops a route on `f`. */
  ghost predicate OpenBetween(a: PlainRib, e: Name, n: Name, f: Face) {
    forall k | |e| < k < |n| :: OpenAt(a, n[..k], f)
  }

  function Passed(a: PlainRib, e: Name, f: Face): Option<Route> { PassOf(Get(a, e), Ancestor(a, e, f), f) }

  lemma {:induction false} AboveThrough(a: PlainRib, e: Name, n: Name, k: nat, f: Face)
    requires e < n && |e| < k <= |n| && OpenBetween(a, e, n, f)
    ensures Above(a, n, k, f) == Passed(a, e, f)
  {
    assert n[..|e|] == e;
    if k == |e| + 1 {
      AbovePrefix(a, e, n, |e|, f);
    } else {
      assert OpenAt(a, n[..k - 1], f);
      AboveThrough(a, e, n, k - 1, f);
    }
  }

  /** Behind an open stretch, the ancestor route is what `e` passes down. */
  lemma {:induction false} AncestorThrough(a: PlainRib, e: Name, n: Name, f: Face)
    requires e < n && OpenBetween(a, e, n, f)
    ensures Ancestor(a, n, f) == Passed(a, e, f)
  {
    AboveThrough(a, e, n, |n|, f);
  }

  lemma {:induction false} AboveBlocked(a: PlainRib, b: PlainRib, e: Name, n: Name, j: nat, k: nat, f: Face)
    requires AgreeExceptAt(a, b, e) && e < n && |e| < j < k <= |n| && !OpenAt(a, n[..j], f)
    ensures Above(a, n, k, f) == Above(b, n, k, f)
  {
    assert n[..k - 1] != e;
    assert AgreeAt(a, b, n[..k - 1]);
    if k > j + 1 {
      AboveBlocked(a, b, e, n, j, k - 1, f);
    }
  }

  /** Names that a change at `e` cannot reach on `f` keep their ancestor route. */
  lemma {:induction false} AncestorFrame(a: PlainRib, b: PlainRib, e: Name, n: Name, f: Face)
    requires AgreeExceptAt(a, b, e)
    requires !(e < n && OpenBetween(a, e, n, f))
    ensures Ancestor(a, n, f) == Ancestor(b, n, f)
  {
    if e < n {
      var j :| |e| < j < |n| && !OpenAt(a, n[..j], f);
      AboveBlocked(a, b, e, n, j, |n|, f);
    } else {
      forall j | 0 <= j < |n| ensures AgreeAt(a, b, n[..j]) {
        assert n[..j] == e ==> e < n;
      }
      AboveLocal(a, b, n, |n|, f);
    }
  }

  lemma {:induction false} OpenBetweenFrame(a: PlainRib, b: PlainRib, e: Name, n: Name, f: Face)
    requires AgreeExceptAt(a, b, e) && e < n
    ensures OpenBetween(a, e, n, f) <==> OpenBetween(b, e, n, f)
  {
    forall k | |e| < k < |n| ensures OpenAt(a, n[..k], f) <==> OpenAt(b, n[..k], f) {
      assert n[..k] != e && AgreeAt(a, b, n[..k]);
    }
  }

  /** Once no entry has a route on a face, the from-scratch FIB and records have nothing on it: what is
      left to the forwarder is to drop the face. */
  lemma {:induction false} FaceGone(a: PlainRib, n: Name, f: Face)
    requires forall m | m in a :: !HasFace(a[m].routes, f)
    ensures Want(a, n, f) == None && !WantInherited(a, n, f)
  {
    NothingAbove(a, n, |n|, f);
    if n in a {
      FaceFound(a[n].routes, f);
    }
  }

  lemma {:induction false} NothingAbove(a: PlainRib, n: Name, k: nat, f: Face)
    requires k <= |n| && forall m | m in a :: !HasFace(a[m].routes, f)
    ensures Above(a, n, k, f) == None
  {
    if k > 0 {
      NothingAbove(a, n, k - 1, f);
    }
  }

  // ---- The entries below a change at `e` ----

  /** At a reached entry without a route of its own on `f`, the effect `x` leaves what `told` says;
      anywhere else it does nothing. */
  ghost predicate Leaves(a: PlainRib, e: Name, x: Effect, told: Option<Route>, n: Name, f: Face) {
    if Reached(a, e, n, f) && !HasFace(a[n].routes, f)
    then
      && Apply(x.fib, Cost(Passed(a, e, f))) == Cost(told)
      && (RecordAfter(x.inh, Passed(a, e, f).Some?) <==> told.Some?)
    else x == NOTHING
  }

  /** What is left where `told` was left, after a further addition and removal; `was` is what `e`
      passed down before the update. */
  function PushTold(told: Option<Route>, was: Option<Route>, add: Option<Route>, rem: bool): Option<Route> {
    if add.Some? then add else if rem && was.Some? then None else told
  }

  /** Before the update, a reached entry has what `e` passes down, unless it has its own route. */
  lemma {:induction false} ReachedHas(a: PlainRib, e: Name, n: Name, f: Face)
    requires RecordsExact(a) && Reached(a, e, n, f)
    ensures f in a[n].inh <==> !HasFace(a[n].routes, f) && Passed(a, e, f).Some?
    ensures Ancestor(a, n, f) == Passed(a, e, f)
    ensures !HasFace(a[n].routes, f) ==> Want(a, n, f) == Cost(Passed(a, e, f))
  {
    FaceFound(a[n].routes, f);
    AncestorThrough(a, e, n, f);
    assert n[..|n|] == n;
    assert OpenAt(a, n, f);
  }

  lemma {:induction false} ThenPushed(a: PlainRib, e: Name, x: Effect, told: Option<Route>, add: Option<Route>,
      rem: bool,
      n: Name, f: Face)
    requires RecordsExact(a) && Leaves(a, e, x, told, n, f)
    ensures Leaves(a, e, Then(x, Pushed(a, e, add, rem, n, f)), PushTold(told, Passed(a, e, f), add, rem), n, f)
  {
    if Reached(a, e, n, f) {
      ReachedHas(a, e, n, f);
    }
  }

  lemma {:induction false} PushedLeaves(a: PlainRib, e: Name, add: Option<Route>, rem: bool, n: Name, f: Face)
    requires RecordsExact(a)
    ensures Leaves(a, e, Pushed(a, e, add, rem, n, f), PushTold(Passed(a, e, f), Passed(a, e, f), add, rem), n, f)
  {
    ThenPushed(a, e, NOTHING, Passed(a, e, f), add, rem, n, f);
  }

  /** An entry below `e` ends up right exactly when it is out of reach, has its own route on `f`, or is
      left with what `e` passes down afterwards. */
  lemma {:induction false} DescendantStep(a: PlainRib, b: PlainRib, e: Name, x: Effect, told: Option<Route>, n: Name,
      f: Face)
    requires AgreeExceptAt(a, b, e) && n != e && RecordsExact(a) && Leaves(a, e, x, told, n, f)
    ensures RightAt(a, b, x, n, f) <==>
            (Reached(a, e, n, f) && !HasFace(a[n].routes, f) ==> Cost(told) == Cost(Passed(b, e, f)))
  {
    assert AgreeAt(a, b, n);
    if n in a {
      FaceFound(a[n].routes, f);
      if e < n && OpenBetween(a, e, n, f) {
        OpenBetweenFrame(a, b, e, n, f);
        AncestorThrough(a, e, n, f);
        AncestorThrough(b, e, n, f);
        assert n[..|n|] == n;
        assert Reached(a, e, n, f) <==> OpenAt(a, n, f);
      } else {
        AncestorFrame(a, b, e, n, f);
        assert !Reached(a, e, n, f);
      }
    }
  }

  /** Some entry below `e` on `f` takes what `e` passes down. */
  ghost predicate Hit(a: PlainRib, e: Name, f: Face) {
    exists n :: Reached(a, e, n, f) && !HasFace(a[n].routes, f)
  }
}
