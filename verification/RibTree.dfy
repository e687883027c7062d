/** The RIB table with its parent and child links, and what the links must say. */
module RibTree {
  import opened Options
  import opened Names
  import opened RibSpec
  import opened Seqs

  /** A RIB entry. Links hold the names of the linked entries. */
  datatype Entry = Entry(routes: seq<Route>, nCapture: nat, inherited: seq<Route>,
                         parent: Option<Name>, children: seq<Name>)

  type Table = map<Name, Entry>

  function Faces(rs: seq<Route>): set<Face> { set i | 0 <= i < |rs| :: rs[i].face }

  function NodeOf(x: Entry): Node { Node(x.routes, x.nCapture, Faces(x.inherited)) }

  /** The entry after `eraseRoute` at position `i`. */
  function Shortened(x: Entry, i: nat): Entry
    requires i < |x.routes|
  {
    var nd := EraseAt(NodeOf(x), i);
    x.(routes := nd.routes, nCapture := nd.nCapture)
  }

  /** The table without its links. */
  function Plain(t: Table): PlainRib { map n | n in t :: NodeOf(t[n]) }

  // ---- Longest prefixes ----

  function LongestBelow(keys: set<Name>, n: Name, k: nat): (p: Option<Name>)
    requires k <= |n|
    ensures p.Some? ==> p.value in keys && p.value < n && |p.value| < k
    ensures p.Some? ==> forall j | |p.value| < j < k :: n[..j] !in keys
    ensures p.None? ==> forall j | 0 <= j < k :: n[..j] !in keys
  {
    if k == 0 then None
    else if n[..k - 1] in keys then Some(n[..k - 1])
    else LongestBelow(keys, n, k - 1)
  }

  /** The longest proper prefix of `n` among `keys`. */
  function ParentOf(keys: set<Name>, n: Name): Option<Name> { LongestBelow(keys, n, |n|) }

  lemma {:induction false} LongestIs(keys: set<Name>, n: Name, k: nat, j: nat)
    requires j < k <= |n| && n[..j] in keys && forall i | j < i < k :: n[..i] !in keys
    ensures LongestBelow(keys, n, k) == Some(n[..j])
  {
    if j < k - 1 {
      LongestIs(keys, n, k - 1, j);
    }
  }

  /** `c` lies below `e` with no key between them. */
  ghost predicate IsKid(keys: set<Name>, e: Name, c: Name) {
    c in keys && e < c && forall k | |e| < k < |c| :: c[..k] !in keys
  }

  lemma {:induction false} KidsOfKey(keys: set<Name>, e: Name, c: Name)
    requires e in keys && c in keys
    ensures ParentOf(keys, c) == Some(e) <==> IsKid(keys, e, c)
  {
    if IsKid(keys, e, c) {
      assert c[..|e|] == e;
      LongestIs(keys, c, |c|, |e|);
    }
  }

  /** For a name outside the table, the future children are the descendants with the same parent. */
  lemma {:induction false} KidsOfNewName(keys: set<Name>, e: Name, c: Name)
    requires e !in keys && c in keys
    ensures IsKid(keys, e, c) <==> e < c && ParentOf(keys, c) == ParentOf(keys, e)
  {
    if e < c {
      assert e[..|e|] == e && forall j | 0 <= j <= |e| :: c[..j] == e[..j];
      var p, q := ParentOf(keys, c), ParentOf(keys, e);
      if q.Some? {
        var j := |q.value|;
        assert c[..j] == q.value;
        if IsKid(keys, e, c) {
          forall i | j < i < |c| ensures c[..i] !in keys {
            if i <= |e| { assert c[..i] == e[..i]; assert e[..|e|] == e; }
          }
          LongestIs(keys, c, |c|, j);
        }
      } else if p.Some? {
        var j := |p.value|;
        assert c[..j] == p.value;
      }
    }
  }

  predicate NamesParent(t: Table, c: Name, n: Name) { c in t && t[c].parent == Some(n) }

  ghost predicate ChildrenOk(t: Table, n: Name)
    requires n in t
  {
    Distinct(t[n].children) && forall c :: c in t[n].children <==> NamesParent(t, c, n)
  }

  /** Every parent link names the longest proper prefix in the table, and every child list holds
      exactly the entries naming it as parent, once each. */
  ghost predicate TreeOk(t: Table) {
    forall n | n in t :: t[n].parent == ParentOf(t.Keys, n) && ChildrenOk(t, n)
  }

  lemma {:induction false} ChildrenAreKids(t: Table, n: Name)
    requires TreeOk(t) && n in t
    ensures forall c :: c in t[n].children <==> IsKid(t.Keys, n, c)
  {
    assert ChildrenOk(t, n);
    forall c ensures c in t[n].children <==> IsKid(t.Keys, n, c) {
      if c in t {
        KidsOfKey(t.Keys, n, c);
        assert NamesParent(t, c, n) <==> ParentOf(t.Keys, c) == Some(n);
      }
    }
  }

  // ---- Reaching entries through children ----

  /** From `c` down to `n`, both included, no entry stops a route on `f`. */
  ghost predicate ReachedFrom(a: PlainRib, c: Name, n: Name, f: Face) {
    n in a && c <= n && forall k | |c| <= k <= |n| :: OpenAt(a, n[..k], f)
  }

  /** The key on the way from `e` down to `n` that is nearest to `e`. */
  lemma {:induction false} FirstKid(keys: set<Name>, e: Name, n: Name, k: nat) returns (c: Name)
    requires n in keys && e < n && |e| < k <= |n|
    requires forall j | |e| < j < k :: n[..j] !in keys
    ensures IsKid(keys, e, c) && c <= n
    decreases |n| - k
  {
    if n[..k] in keys {
      c := n[..k];
      forall j | |e| < j < |c| ensures c[..j] !in keys {
        assert c[..j] == n[..j];
      }
    } else {
      assert n[..|n|] == n;
      c := FirstKid(keys, e, n, k + 1);
    }
  }

  lemma {:induction false} KidIsUnique(keys: set<Name>, e: Name, n: Name, c: Name, d: Name)
    requires IsKid(keys, e, c) && IsKid(keys, e, d) && c <= n && d <= n
    ensures c == d
  {
    assert forall j | 0 <= j <= |c| :: c[..j] == n[..j];
    assert forall j | 0 <= j <= |d| :: d[..j] == n[..j];
    assert c[..|c|] == c && d[..|d|] == d;
  }

  lemma {:induction false} ReachedThroughKid(a: PlainRib, e: Name, c: Name, n: Name, f: Face)
    requires IsKid(a.Keys, e, c) && c <= n
    ensures Reached(a, e, n, f) <==> ReachedFrom(a, c, n, f)
  {
    forall k | |e| < k < |c| ensures OpenAt(a, n[..k], f) {
      assert n[..k] == c[..k];
    }
  }

  lemma {:induction false} ReachedHasKid(a: PlainRib, e: Name, n: Name, f: Face) returns (c: Name)
    requires Reached(a, e, n, f)
    ensures IsKid(a.Keys, e, c) && c <= n && ReachedFrom(a, c, n, f)
  {
    c := FirstKid(a.Keys, e, n, |e| + 1);
    ReachedThroughKid(a, e, c, n, f);
  }

  // ---- The list of inherited-route records ----

  /** What replaying the records decides about `f` at `n`: the last one counts. */
  function Recorded(s: seq<RibUpdate>, n: Name, f: Face): Option<bool> {
    if s == [] then None
    else
      var u := s[|s| - 1];
      if u.name == n && u.route.face == f then Some(u.action == Register) else Recorded(s[..|s| - 1], n, f)
  }

  /** Records are registrations or unregistrations of inherited routes. */
  predicate RecordsOk(s: seq<RibUpdate>) { forall u | u in s :: u.action != RemoveFace }

  /** `t'` is `t` with the records replayed on the inherited-route lists. */
  ghost predicate Replayed(t: Table, t': Table, s: seq<RibUpdate>) {
    && t'.Keys == t.Keys
    && (forall n | n in t :: t'[n] == t[n].(inherited := t'[n].inherited))
    && (forall n, f | n in t ::
          f in Faces(t'[n].inherited) <==> RecordAfter(Recorded(s, n, f), f in Faces(t[n].inherited)))
  }

  function DropInherited(rs: seq<Route>, f: Face): seq<Route> {
    if rs == [] then []
    else if rs[|rs| - 1].face == f then DropInherited(rs[..|rs| - 1], f)
    else DropInherited(rs[..|rs| - 1], f) + [rs[|rs| - 1]]
  }

  lemma {:induction false} DropInheritedFaces(rs: seq<Route>, f: Face)
    ensures Faces(DropInherited(rs, f)) == Faces(rs) - {f}
  {
    if rs != [] {
      var k := |rs| - 1;
      DropInheritedFaces(rs[..k], f);
      FacesAppend(rs[..k], rs[k]);
      assert rs[..k] + [rs[k]] == rs;
      FacesAppend(DropInherited(rs[..k], f), rs[k]);
    }
  }

  lemma {:induction false} FacesAppend(rs: seq<Route>, r: Route)
    ensures Faces(rs + [r]) == Faces(rs) + {r.face}
  {
    forall g | g in Faces(rs) + {r.face} ensures g in Faces(rs + [r]) {
      if g in Faces(rs) {
        var i :| 0 <= i < |rs| && rs[i].face == g;
        assert (rs + [r])[i].face == g;
      } else {
        assert (rs + [r])[|rs|].face == g;
      }
    }
  }

  lemma {:induction false} DropInheritedMembers(rs: seq<Route>, f: Face, x: Route)
    ensures x in DropInherited(rs, f) <==> x in rs && x.face != f
  {
    if rs != [] {
      DropInheritedMembers(rs[..|rs| - 1], f, x);
      assert rs == rs[..|rs| - 1] + [rs[|rs| - 1]];
    }
  }

  predicate Registers(s: seq<RibUpdate>, n: Name, x: Route, k: nat) {
    k < |s| && s[k] == RibUpdate(Register, n, x)
  }

  /** From position `k` on, nothing on the face is unregistered at `n`. */
  predicate KeptFrom(s: seq<RibUpdate>, n: Name, f: Face, k: nat) {
    forall j | k <= j < |s| :: !(s[j].action == Unregister && s[j].name == n && s[j].route.face == f)
  }

  /** `x` is inherited at `n` after the records: it was there before or has been registered, and nothing
      on its face was unregistered since. */
  ghost predicate InheritedAfter(was: seq<Route>, s: seq<RibUpdate>, n: Name, x: Route) {
    || (x in was && KeptFrom(s, n, x.face, 0))
    || exists k: nat :: Registers(s, n, x, k) && KeptFrom(s, n, x.face, k + 1)
  }

  ghost predicate ReplayedRoutes(t: Table, t': Table, s: seq<RibUpdate>) {
    forall n, x | n in t && n in t' :: x in t'[n].inherited <==> InheritedAfter(t[n].inherited, s, n, x)
  }

  lemma {:induction false} ReplayRoutesNext(t: Table, t': Table, s: seq<RibUpdate>, u: RibUpdate)
    requires t.Keys == t'.Keys && ReplayedRoutes(t, t', s) && u.name in t && u.action != RemoveFace
    ensures ReplayedRoutes(t, t'[u.name := ReplayOne(t'[u.name], u)], s + [u])
  {
    var t'' := t'[u.name := ReplayOne(t'[u.name], u)];
    forall n, x | n in t && n in t''
      ensures x in t''[n].inherited <==> InheritedAfter(t[n].inherited, s + [u], n, x)
    {
      InheritedNext(t[n].inherited, s, u, n, x);
      DropInheritedMembers(t'[n].inherited, u.route.face, x);
    }
  }

  lemma {:induction false} KeptNext(s: seq<RibUpdate>, u: RibUpdate, n: Name, f: Face, k: nat)
    requires k <= |s|
    ensures KeptFrom(s + [u], n, f, k) <==>
            KeptFrom(s, n, f, k) && !(u.action == Unregister && u.name == n && u.route.face == f)
  {
    var q := s + [u];
    assert q[|s|] == u;
    if KeptFrom(q, n, f, k) {
      forall j | k <= j < |s| ensures !(s[j].action == Unregister && s[j].name == n && s[j].route.face == f) {
        assert q[j] == s[j];
      }
    }
  }

  lemma {:induction false} InheritedNext(was: seq<Route>, s: seq<RibUpdate>, u: RibUpdate, n: Name, x: Route)
    ensures InheritedAfter(was, s + [u], n, x) <==>
            || u == RibUpdate(Register, n, x)
            || (InheritedAfter(was, s, n, x) && !(u.action == Unregister && u.name == n && u.route.face == x.face))
  {
    var q := s + [u];
    KeptNext(s, u, n, x.face, 0);
    if k: nat :| Registers(q, n, x, k) && KeptFrom(q, n, x.face, k + 1) && k < |s| {
      KeptNext(s, u, n, x.face, k + 1);
      assert Registers(s, n, x, k);
    }
    if k: nat :| Registers(s, n, x, k) && KeptFrom(s, n, x.face, k + 1) {
      KeptNext(s, u, n, x.face, k + 1);
      assert Registers(q, n, x, k);
    }
    if u == RibUpdate(Register, n, x) {
      assert Registers(q, n, x, |s|) && KeptFrom(q, n, x.face, |s| + 1);
    }
  }

  /** `addInheritedRoute` and `removeInheritedRoute` of an entry. */
  function ReplayOne(x: Entry, u: RibUpdate): Entry {
    match u.action
    case Register => x.(inherited := x.inherited + [u.route])
    case Unregister => x.(inherited := DropInherited(x.inherited, u.route.face))
    case RemoveFace => x
  }

  lemma {:induction false} ReplayNext(t: Table, t': Table, s: seq<RibUpdate>, u: RibUpdate)
    requires Replayed(t, t', s) && u.name in t && u.action != RemoveFace
    ensures Replayed(t, t'[u.name := ReplayOne(t'[u.name], u)], s + [u])
  {
    var x := t'[u.name];
    FacesAppend(x.inherited, u.route);
    DropInheritedFaces(x.inherited, u.route.face);
    assert (s + [u])[..|s|] == s;
  }
}
