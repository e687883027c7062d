/** Read-only searches of the RIB table. */
module RibQueries {
  import opened Options
  import opened Names
  import opened RibSpec
  import opened Seqs
  import opened RibTree
  import opened RouteSets

  /** The lowest-cost queries of an entry; with `ci`, among child-inheriting routes. */
  method LowestCostRoute(rs: seq<Route>, f: Face, ci: bool) returns (candidate: Option<Route>)
    ensures candidate == Cheapest(rs, f, ci)
  {
    candidate := None;
    for i := 0 to |rs|
      invariant candidate == Cheapest(rs[..i], f, ci)
    {
      CheapestNext(rs, i, f, ci);
      if rs[i].face == f && (ci ==> rs[i].childInherit) {
        if candidate.None? {
          candidate := Some(rs[i]);
        } else if rs[i].cost < candidate.value.cost {
          candidate := Some(rs[i]);
        }
      }
    }
    assert rs[..|rs|] == rs;
  }

  lemma {:induction false} CheapestNext(rs: seq<Route>, i: nat, f: Face, ci: bool)
    requires i < |rs|
    ensures Cheapest(rs[..i + 1], f, ci) ==
      var c := Cheapest(rs[..i], f, ci);
      if rs[i].face == f && (ci ==> rs[i].childInherit) && (c.None? || rs[i].cost < c.value.cost)
      then Some(rs[i]) else c
  {
    assert rs[..i + 1][..i] == rs[..i];
  }

  /** `Rib::findParent`: tries every shorter prefix, longest first. */
  method FindParent(t: Table, n: Name) returns (p: Option<Name>)
    ensures p == ParentOf(t.Keys, n)
  {
    var i := |n|;
    while i > 0
      invariant 0 <= i <= |n| && ParentOf(t.Keys, n) == LongestBelow(t.Keys, n, i)
    {
      i := i - 1;
      if n[..i] in t {
        return Some(n[..i]);
      }
    }
    return None;
  }

  /** What still reaches `n` on `f` when the walk has climbed to `cur`. */
  function Remaining(a: PlainRib, n: Name, cur: Option<Name>, f: Face): Option<Route>
    requires cur.Some? ==> cur.value < n
  {
    if cur.None? then None else Above(a, n, |cur.value| + 1, f)
  }

  lemma {:induction false} AboveSkips(a: PlainRib, n: Name, k: nat, f: Face)
    requires k <= |n|
    ensures Above(a, n, k, f) == Remaining(a, n, LongestBelow(a.Keys, n, k), f)
  {
    if k > 0 && n[..k - 1] !in a {
      AboveSkips(a, n, k - 1, f);
    }
  }

  ghost predicate Collected(a: PlainRib, n: Name, acc: RouteSet, cur: Option<Name>)
    requires cur.Some? ==> cur.value < n
  {
    forall f :: Ancestor(a, n, f) == if SetFind(acc, f).Some? then SetFind(acc, f) else Remaining(a, n, cur, f)
  }

  /** Inserts the child-inheriting routes of an entry, in list order. */
  method CollectInherited(rs: seq<Route>, acc: RouteSet) returns (res: RouteSet)
    requires SetOk(acc)
    ensures SetOk(res)
    ensures forall f :: SetFind(res, f) == if SetFind(acc, f).Some? then SetFind(acc, f) else FirstInherited(rs, f)
  {
    res := acc;
    for i := 0 to |rs|
      invariant SetOk(res)
      invariant forall f ::
        SetFind(res, f) == if SetFind(acc, f).Some? then SetFind(acc, f) else FirstInherited(rs[..i], f)
    {
      assert rs[..i + 1][..i] == rs[..i];
      if rs[i].childInherit {
        forall f: Face { SetInsertFinds(res, rs[i], f); }
        res := SetInsert(res, rs[i]);
      }
    }
    assert rs[..|rs|] == rs;
  }

  lemma {:induction false} ClimbOne(a: PlainRib, n: Name, acc: RouteSet, acc': RouteSet, p: Name)
    requires p < n && p in a && Collected(a, n, acc, Some(p))
    requires forall f ::
      SetFind(acc', f) == if SetFind(acc, f).Some? then SetFind(acc, f) else FirstInherited(a[p].routes, f)
    ensures ParentOf(a.Keys, p).Some? ==> ParentOf(a.Keys, p).value < n
    ensures HasCapture(a[p]) ==> Collected(a, n, acc', None)
    ensures !HasCapture(a[p]) ==> Collected(a, n, acc', ParentOf(a.Keys, p))
  {
    assert n[..|p|] == p;
    SamePrefixes(a.Keys, p, n, |p|);
    forall f: Face { AboveSkips(a, n, |p|, f); }
  }

  lemma {:induction false} SamePrefixes(keys: set<Name>, p: Name, n: Name, k: nat)
    requires p <= n && k <= |p|
    ensures LongestBelow(keys, p, k) == LongestBelow(keys, n, k)
  {
    if k > 0 {
      assert p[..k - 1] == n[..k - 1];
      SamePrefixes(keys, p, n, k - 1);
    }
  }

  /** `Rib::getAncestorRoutes`: climbs from `start`, stopping behind a capturing entry. */
  method GetAncestorRoutes(t: Table, n: Name, start: Option<Name>) returns (acc: RouteSet)
    requires TreeOk(t) && start == ParentOf(t.Keys, n)
    ensures SetOk(acc)
    ensures forall f :: SetFind(acc, f) == Ancestor(Plain(t), n, f)
  {
    ghost var a := Plain(t);
    assert a.Keys == t.Keys;
    acc := [];
    var cur := start;
    forall f: Face { AboveSkips(a, n, |n|, f); }
    while cur.Some?
      invariant SetOk(acc)
      invariant cur.Some? ==> cur.value in t && cur.value < n
      invariant Collected(a, n, acc, cur)
      decreases if cur.Some? then |cur.value| + 1 else 0
    {
      var p := cur.value;
      var acc' := CollectInherited(t[p].routes, acc);
      ClimbOne(a, n, acc, acc', p);
      acc := acc';
      if t[p].nCapture > 0 {
        cur := None;
        break;
      }
      cur := t[p].parent;
    }
  }

  predicate SortedNames(names: seq<Name>) { forall i, j | 0 <= i < j < |names| :: NameLess(names[i], names[j]) }

  /** The ordered key list of the table, as an ordered map iterates it. */
  ghost predicate IsIndex(names: seq<Name>, t: Table) {
    SortedNames(names) && forall n :: n in names <==> n in t
  }

  lemma {:induction false} SortedIsDistinct(names: seq<Name>)
    requires SortedNames(names)
    ensures Distinct(names)
  {
    forall i, j | 0 <= i < j < |names| ensures names[i] != names[j] {
      CompareNamesFlip(names[i], names[j]);
    }
  }

  /** `Rib::findDescendantsForNonInsertedName`: a scan of the whole table. */
  method FindDescendantsForNonInsertedName(names: seq<Name>, prefix: Name) returns (ds: seq<Name>)
    requires Distinct(names)
    ensures Distinct(ds)
    ensures forall d :: d in ds <==> d in names && prefix <= d
  {
    ds := [];
    for i := 0 to |names|
      invariant Distinct(ds)
      invariant forall d :: d in ds <==> d in names[..i] && prefix <= d
    {
      assert names[i] !in names[..i];
      assert names[..i + 1] == names[..i] + [names[i]];
      if prefix <= names[i] {
        ds := ds + [names[i]];
      }
    }
    assert names[..|names|] == names;
  }

  /** The children a name outside the table would adopt: descendants with the same parent. */
  method FindAdoptees(t: Table, names: seq<Name>, prefix: Name) returns (children: seq<Name>)
    requires TreeOk(t) && IsIndex(names, t) && prefix !in t
    ensures Distinct(children)
    ensures forall c :: c in children <==> IsKid(t.Keys, prefix, c)
  {
    SortedIsDistinct(names);
    var parent := FindParent(t, prefix);
    var ds := FindDescendantsForNonInsertedName(names, prefix);
    children := [];
    for i := 0 to |ds|
      invariant Distinct(children)
      invariant forall c :: c in children <==> c in ds[..i] && IsKid(t.Keys, prefix, c)
    {
      assert ds[i] !in ds[..i];
      assert ds[..i + 1] == ds[..i] + [ds[i]];
      assert ds[i] in ds && ds[i] != prefix;
      KidsOfNewName(t.Keys, prefix, ds[i]);
      if t[ds[i]].parent == parent {
        children := children + [ds[i]];
      }
    }
    assert ds[..|ds|] == ds;
  }
}
