/** The counter of capturing routes that each RIB entry keeps beside its route list. */
module CaptureCounter {
  import opened Names
  import opened RibSpec

  lemma {:induction false} CaptureSplit(rs: seq<Route>, ss: seq<Route>)
    ensures CountCapture(rs + ss) == CountCapture(rs) + CountCapture(ss)
  {
    if ss == [] {
      assert rs + ss == rs;
    } else {
      assert (rs + ss)[..|rs + ss| - 1] == rs + ss[..|ss| - 1];
      CaptureSplit(rs, ss[..|ss| - 1]);
    }
  }

  lemma {:induction false} CaptureAt(rs: seq<Route>, i: nat)
    requires i < |rs|
    ensures CountCapture(rs) ==
            CountCapture(rs[..i]) + (if rs[i].capture then 1 else 0) + CountCapture(rs[i + 1..])
  {
    CaptureSplit(rs[..i], [rs[i]]);
    CaptureSplit(rs[..i] + [rs[i]], rs[i + 1..]);
    assert rs == (rs[..i] + [rs[i]]) + rs[i + 1..];
    assert [rs[i]][..0] == [];
  }

  /** How the count of capturing routes changes when the route at `i` is replaced or erased. */
  lemma {:induction false} CaptureEdits(rs: seq<Route>, i: nat, r: Route)
    requires i < |rs|
    ensures var c := if rs[i].capture then 1 else 0;
      && CountCapture(rs[i := r]) == CountCapture(rs) - c + (if r.capture then 1 else 0)
      && CountCapture(rs[..i] + rs[i + 1..]) == CountCapture(rs) - c
  {
    var ss := rs[i := r];
    CaptureAt(rs, i);
    CaptureAt(ss, i);
    assert ss[..i] == rs[..i] && ss[i + 1..] == rs[i + 1..];
    CaptureSplit(rs[..i], rs[i + 1..]);
  }

  lemma {:induction false} CaptureWitness(rs: seq<Route>)
    ensures CountCapture(rs) > 0 <==> exists i :: 0 <= i < |rs| && rs[i].capture
  {
    if rs != [] {
      CaptureWitness(rs[..|rs| - 1]);
      assert rs[|rs| - 1].capture || forall i | 0 <= i < |rs| && rs[i].capture :: rs[..|rs| - 1][i].capture;
    }
  }

  ghost predicate CountersOk(a: PlainRib) { forall n | n in a :: a[n].nCapture == CountCapture(a[n].routes) }

  /** A re-registration that overwrites a route leaves its capture flag as it was. */
  predicate KeepsCaptureBit(a: PlainRib, u: RibUpdate) {
    u.action == Register && u.name in a ==>
      var rs := a[u.name].routes;
      var i := IndexOf(rs, u.route);
      i < |rs| ==> rs[i].capture == u.route.capture
  }

  lemma {:induction false} InsertCounts(nd: Node, r: Route)
    requires nd.nCapture == CountCapture(nd.routes)
    ensures InsertRoute(nd, r).nCapture == CountCapture(InsertRoute(nd, r).routes)
  {
    assert (nd.routes + [r])[..|nd.routes|] == nd.routes;
  }

  lemma {:induction false} EditedEntry(a: PlainRib, u: RibUpdate)
    requires CountersOk(a) && u.name in Edit(a, u)
    ensures var nd := Edit(a, u)[u.name];
      nd.nCapture == CountCapture(nd.routes) <==> KeepsCaptureBit(a, u)
  {
    var e, r := u.name, u.route;
    if e in a {
      var i := IndexOf(a[e].routes, r);
      if i < |a[e].routes| {
        CaptureEdits(a[e].routes, i, r);
      } else {
        InsertCounts(a[e], r);
      }
    } else {
      InsertCounts(Node([], 0, {}), r);
    }
  }

  /** Exact counters stay exact over one change of the RIB if and only if it keeps the capture flag of
      a route it overwrites. */
  lemma {:induction false} StepKeepsCounters(a: PlainRib, u: RibUpdate)
    requires CountersOk(a)
    ensures CountersOk(Edit(a, u)) <==> KeepsCaptureBit(a, u)
  {
    var e, b := u.name, Edit(a, u);
    assert forall n | n in b && n != e :: n in a && b[n] == a[n];
    if e in b {
      EditedEntry(a, u);
      assert CountersOk(b) <==> b[e].nCapture == CountCapture(b[e].routes);
    }
  }

  /** An exact counter tells whether some route captures. */
  lemma {:induction false} CountTells(nd: Node)
    requires nd.nCapture == CountCapture(nd.routes)
    ensures HasCapture(nd) <==> exists r :: r in nd.routes && r.capture
  {
    var rs := nd.routes;
    CaptureWitness(rs);
    if r :| r in rs && r.capture {
      var i :| 0 <= i < |rs| && rs[i] == r;
      assert rs[i].capture;
    }
  }

  /** The RIB after the updates, from an empty one. */
  function Edited(us: seq<RibUpdate>): PlainRib {
    if us == [] then map[] else Edit(Edited(us[..|us| - 1]), us[|us| - 1])
  }

  /** If every overwrite so far kept the capture flag, an entry reports capture exactly when one of
      its routes captures, however many routes it has and in whatever order they came. */
  lemma {:induction false} RunKeepsCounters(us: seq<RibUpdate>)
    requires forall k | 0 <= k < |us| :: KeepsCaptureBit(Edited(us[..k]), us[k])
    ensures CountersOk(Edited(us))
    ensures forall n | n in Edited(us) ::
      HasCapture(Edited(us)[n]) <==> exists r :: r in Edited(us)[n].routes && r.capture
  {
    if us != [] {
      var k := |us| - 1;
      assert forall j | 0 <= j < k :: us[..k][..j] == us[..j];
      RunKeepsCounters(us[..k]);
      assert KeepsCaptureBit(Edited(us[..k]), us[k]);
      StepKeepsCounters(Edited(us[..k]), us[k]);
    }
    forall n | n in Edited(us)
      ensures HasCapture(Edited(us)[n]) <==> exists r :: r in Edited(us)[n].routes && r.capture
    {
      CountTells(Edited(us)[n]);
    }
  }
}
