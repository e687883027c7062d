/** One RIB update from end to end: compute the FIB updates, apply them, then change the RIB. */
module RibUpdates {
  import opened Options
  import opened Names
  import opened RibSpec
  import opened RibTree
  import opened RibQueries
  import opened FibTheory
  import opened FibSteps
  import opened FibRuns
  import opened Ribs
  import opened FibUpdaters

  function ApplyOne(fib: Fib, u: FibUpdate): Fib {
    if u.action == ADD_NEXTHOP then fib[(u.name, u.face) := u.cost] else fib - {(u.name, u.face)}
  }

  /** The forwarder's FIB after all updates of a list, in list order. */
  method ApplyList(fib: Fib, s: seq<FibUpdate>) returns (fib': Fib)
    requires UniqueKeys(s)
    ensures forall n, f :: Look(fib', n, f) == Apply(Listed(s, n, f), Look(fib, n, f))
  {
    fib' := fib;
    for i := 0 to |s|
      invariant forall n, f :: Look(fib', n, f) == Apply(Listed(s[..i], n, f), Look(fib, n, f))
    {
      ListedPrefix(s, i);
      fib' := ApplyOne(fib', s[i]);
    }
    assert s[..|s|] == s;
  }

  lemma {:induction false} ListedPrefix(s: seq<FibUpdate>, i: nat)
    requires UniqueKeys(s) && i < |s|
    ensures forall n, f :: Listed(s[..i + 1], n, f) ==
                             if SameKey(s[i], n, f) then Some(ActOf(s[i])) else Listed(s[..i], n, f)
  {
    var p, q := s[..i], s[..i + 1];
    assert q == p + [s[i]] && s[i] in q;
    forall n, f: Face
      ensures Listed(q, n, f) == if SameKey(s[i], n, f) then Some(ActOf(s[i])) else Listed(p, n, f)
    {
      if SameKey(s[i], n, f) {
        ListedAt(q, s[i]);
      } else {
        ListedSame(p, q, n, f);
      }
    }
  }

  /** Inherited records are emitted only for names that are in the RIB afterwards. */
  lemma {:induction false} RecordsNameEntries(a: PlainRib, u: RibUpdate, n: Name, f: Face)
    requires IsDefined(a, u) && Emitted(a, u, n, f).inh.Some?
    ensures n in Edit(a, u)
  {
    if u.name in a {
      OnFaceIsShort(a[u.name].routes, u.route.face);
    }
  }

  lemma {:induction false} OnFaceIsShort(rs: seq<Route>, f: Face)
    ensures |OnFace(rs, f)| <= |rs|
  {
    if rs != [] {
      OnFaceIsShort(rs[..|rs| - 1], f);
    }
  }

  lemma {:induction false} RecordedByMember(s: seq<RibUpdate>, u: RibUpdate)
    requires u in s
    ensures Recorded(s, u.name, u.route.face).Some?
  {
    var k := |s| - 1;
    if s[k].name != u.name || s[k].route.face != u.route.face {
      assert s == s[..k] + [s[k]];
      RecordedByMember(s[..k], u);
    }
  }

  lemma {:induction false} StepOfReplay(t: Table, t1: Table, t2: Table, u: RibUpdate, q: Lists)
    requires IsDefined(Plain(t), u) && Computed(q, Plain(t), u)
    requires Plain(t1) == Edit(Plain(t), u) && Replayed(t1, t2, q.inherited)
    ensures RibStep(Plain(t), u, Plain(t2))
  {
    var a, b := Plain(t), Plain(t2);
    assert b.Keys == Plain(t1).Keys;
    forall n | n in b ensures b[n].routes == Plain(t1)[n].routes && b[n].nCapture == Plain(t1)[n].nCapture {
      assert t2[n] == t1[n].(inherited := t2[n].inherited);
    }
    forall n, f: Face | n in b
      ensures f in b[n].inh <==> RecordAfter(Emitted(a, u, n, f).inh, n in a && f in a[n].inh)
    {
      assert At(q, n, f) == Emitted(a, u, n, f);
      assert Plain(t1)[n].inh == if n in a then a[n].inh else {};
    }
  }

  /** `Rib::onFibUpdateSuccess` for the one update of a batch. */
  method OnFibUpdateSuccess(rib: Rib, u: RibUpdate, ghost q: Lists, records: seq<RibUpdate>)
    requires rib.Valid() && IsDefined(Plain(rib.table), u)
    requires Computed(q, Plain(rib.table), u) && records == q.inherited && RecordsOk(records)
    modifies rib
    ensures rib.Valid() && RibStep(old(Plain(rib.table)), u, Plain(rib.table))
  {
    ghost var t := rib.table;
    if u.action == Register {
      rib.Insert(u.name, u.route);
    } else {
      rib.Erase(u.name, u.route);
    }
    ghost var t1 := rib.table;
    assert Plain(t1) == Edit(Plain(t), u);
    forall x | x in records ensures x.name in t1 {
      RecordedByMember(records, x);
      assert At(q, x.name, x.route.face) == Emitted(Plain(t), u, x.name, x.route.face);
      RecordsNameEntries(Plain(t), u, x.name, x.route.face);
    }
    rib.ModifyInheritedRoutes(records);
    StepOfReplay(t, t1, rib.table, u, q);
  }

  /** END TO END. One update computed by the updater, applied to the FIB and then to the RIB is one
      step of the specification; from a consistent state, consistency is kept exactly under `Keeps`. */
  method ApplyUpdate(rib: Rib, updater: FibUpdater, fib: Fib, u: RibUpdate) returns (fib': Fib)
    requires rib.Valid() && updater.Valid() && IsDefined(Plain(rib.table), u)
    modifies rib, updater
    ensures rib.Valid() && updater.Valid()
    ensures RibStep(old(Plain(rib.table)), u, Plain(rib.table))
    ensures FibStep(old(Plain(rib.table)), u, fib, fib')
    ensures u.action != RemoveFace && Consistent(old(Plain(rib.table)), fib) ==>
              (Consistent(Plain(rib.table), fib') <==> Keeps(old(Plain(rib.table)), u))
    ensures u.action == RemoveFace ==> forall n :: Look(fib', n, u.route.face) == Look(fib, n, u.route.face)
  {
    ghost var a := Plain(rib.table);
    updater.ComputeUpdates(rib.table, rib.names, u);
    ghost var q := updater.View();
    fib' := ApplyList(fib, updater.updatesForBatchFaceId);
    fib' := ApplyList(fib', updater.updatesForNonBatchFaceId);
    assert FibStep(a, u, fib, fib') by {
      SplitLists(q);
      assert forall n, f :: At(q, n, f) == Emitted(a, u, n, f);
    }
    assert u.action == RemoveFace ==> forall n :: Look(fib', n, u.route.face) == Look(fib, n, u.route.face) by {
      SplitLists(q);
    }
    OnFibUpdateSuccess(rib, u, q, updater.inheritedRoutes);
    if u.action != RemoveFace && Consistent(a, fib) {
      StepIsExact(a, fib, u, Plain(rib.table), fib');
    }
  }

  /** An update for a face stands in the list for that face only. */
  lemma {:induction false} SplitLists(q: Lists)
    requires ListsOk(q)
    ensures forall n, f | f != q.face :: Listed(q.batch, n, f) == None
    ensures forall n :: Listed(q.nonBatch, n, q.face) == None
  {
  }
}
