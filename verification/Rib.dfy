/** The RIB: a name-ordered table of entries linked into a prefix tree, with a face lookup table and
    a route counter, all changed in place. */
module Ribs {
  import opened Options
  import opened Names
  import opened RibSpec
  import opened Seqs
  import opened RibTree
  import opened RibQueries
  import opened RibLaws

  // ---- Links ----

  ghost predicate LinksOk(t: Table) { forall n | n in t :: ChildrenOk(t, n) }

  /** `RibEntry::addChild` of the entry at `p`. */
  function AddChild(t: Table, p: Name, c: Name): Table
    requires p in t && c in t
  {
    var t' := t[c := t[c].(parent := Some(p))];
    t'[p := t'[p].(children := t'[p].children + [c])]
  }

  /** `RibEntry::removeChild` of the entry at `p`. */
  function RemoveChild(t: Table, p: Name, c: Name): Table
    requires p in t && c in t
  {
    var t' := t[c := t[c].(parent := None)];
    t'[p := t'[p].(children := Removed(t'[p].children, c))]
  }

  /** `b` has the entries of `a` up to their links. */
  ghost predicate SameContent(a: Table, b: Table) {
    a.Keys == b.Keys &&
    forall n | n in a ::
      a[n].routes == b[n].routes && a[n].nCapture == b[n].nCapture && a[n].inherited == b[n].inherited
  }

  /** Only the parent link of `c` differs. */
  ghost predicate Reparented(a: Table, b: Table, c: Name, p: Option<Name>)
    requires c in a
  {
    SameContent(a, b) && b[c].parent == p && forall n | n in a && n != c :: b[n].parent == a[n].parent
  }

  lemma {:induction false} AddChildOk(t: Table, p: Name, c: Name)
    requires p in t && c in t && p != c && LinksOk(t) && t[c].parent == None
    ensures LinksOk(AddChild(t, p, c)) && Reparented(t, AddChild(t, p, c), c, Some(p))
  {
    var b := AddChild(t, p, c);
    forall n | n in b ensures ChildrenOk(b, n) {
      assert ChildrenOk(t, n);
      assert c !in t[n].children;
    }
  }

  lemma {:induction false} RemoveChildOk(t: Table, p: Name, c: Name)
    requires p in t && c in t && p != c && LinksOk(t) && t[c].parent == Some(p)
    ensures LinksOk(RemoveChild(t, p, c)) && Reparented(t, RemoveChild(t, p, c), c, None)
    ensures RemoveChild(t, p, c)[p].children == Removed(t[p].children, c)
  {
    var b := RemoveChild(t, p, c);
    assert b.Keys == t.Keys;
    forall n | n in b ensures ChildrenOk(b, n) {
      assert ChildrenOk(t, n);
      if n == p {
        assert b[n].children == Removed(t[n].children, c);
      } else {
        assert c !in t[n].children && b[n].children == t[n].children;
      }
    }
  }

  // ---- Parents when a name comes or goes ----

  lemma {:induction false} LongestSame(keys: set<Name>, keys': set<Name>, n: Name, k: nat)
    requires k <= |n| && forall j | 0 <= j < k :: n[..j] in keys <==> n[..j] in keys'
    ensures LongestBelow(keys, n, k) == LongestBelow(keys', n, k)
  {
    if k > 0 {
      LongestSame(keys, keys', n, k - 1);
    }
  }

  lemma {:induction false} ParentAfterInsert(keys: set<Name>, e: Name, n: Name)
    requires e !in keys
    ensures ParentOf(keys + {e}, e) == ParentOf(keys, e)
    ensures n in keys ==>
              var adopted := e < n && ParentOf(keys, n) == ParentOf(keys, e);
              ParentOf(keys + {e}, n) == if adopted then Some(e) else ParentOf(keys, n)
  {
    LongestSame(keys, keys + {e}, e, |e|);
    if n in keys {
      KidsOfNewName(keys, e, n);
      if e < n {
        assert n[..|e|] == e;
        if IsKid(keys, e, n) {
          LongestIs(keys + {e}, n, |n|, |e|);
        } else {
          var k :| |e| < k < |n| && n[..k] in keys;
          var p := ParentOf(keys, n).value;
          assert n[..|p|] == p;
          LongestIs(keys + {e}, n, |n|, |p|);
        }
      } else {
        forall j | 0 <= j < |n| ensures n[..j] in keys <==> n[..j] in keys + {e} {
          assert n[..j] == e ==> e < n;
        }
        LongestSame(keys, keys + {e}, n, |n|);
      }
    }
  }

  lemma {:induction false} ParentAfterErase(keys: set<Name>, e: Name, n: Name)
    requires e in keys && n in keys && n != e
    ensures ParentOf(keys - {e}, n) == if ParentOf(keys, n) == Some(e) then ParentOf(keys, e) else ParentOf(keys, n)
  {
    assert (keys - {e}) + {e} == keys;
    ParentAfterInsert(keys - {e}, e, n);
  }

  // ---- Ordered key list ----

  method InsertName(names: seq<Name>, n: Name) returns (r: seq<Name>, ghost i: nat)
    requires SortedNames(names) && n !in names
    ensures i <= |names| && r == names[..i] + [n] + names[i..]
    ensures SortedNames(r) && forall x :: x in r <==> x in names || x == n
  {
    var k := 0;
    while k < |names| && NameLess(names[k], n)
      invariant k <= |names| && forall j | 0 <= j < k :: NameLess(names[j], n)
    {
      k := k + 1;
    }
    i := k;
    r := names[..k] + [n] + names[k..];
    if k < |names| {
      CompareNamesFlip(names[k], n);
      forall j | k < j < |names| ensures NameLess(n, names[j]) {
        NameLessTransitive(n, names[k], names[j]);
      }
    }
    assert names == names[..k] + names[k..];
  }

  method RemoveName(names: seq<Name>, n: Name) returns (r: seq<Name>, ghost i: nat)
    requires SortedNames(names) && n in names
    ensures i < |names| && names[i] == n && r == names[..i] + names[i + 1..]
    ensures SortedNames(r) && forall x :: x in r <==> x in names && x != n
  {
    var k := 0;
    while names[k] != n
      invariant k < |names| && forall j | 0 <= j < k :: names[j] != n
      decreases |names| - k
    {
      k := k + 1;
    }
    i := k;
    r := names[..k] + names[k + 1..];
    SortedIsDistinct(names);
    assert names == names[..k] + [n] + names[k + 1..];
  }

  /** `Rib::findDescendants`: from the position of `prefix` on, as long as the prefix matches. */
  method FindDescendants(names: seq<Name>, prefix: Name) returns (ds: seq<Name>)
    requires SortedNames(names)
    ensures Distinct(ds)
    ensures forall d :: d in ds <==> prefix in names && d in names && prefix < d
  {
    ds := [];
    SortedIsDistinct(names);
    var i := 0;
    while i < |names| && names[i] != prefix
      invariant i <= |names| && forall j | 0 <= j < i :: names[j] != prefix
    {
      i := i + 1;
    }
    if i == |names| {
      return;
    }
    ghost var at := i;
    i := i + 1;
    while i < |names|
      invariant at < i <= |names|
      invariant ds == names[at + 1..i] && forall d | d in ds :: prefix < d
    {
      if !(prefix <= names[i]) {
        break;
      }
      assert names[at] != names[i];
      ds := ds + [names[i]];
      i := i + 1;
    }
    forall d | d in names && prefix < d ensures d in ds {
      var j :| 0 <= j < |names| && names[j] == d;
      PrefixComesFirst(prefix, d);
      CompareNamesFlip(prefix, d);
      assert j < at ==> NameLess(d, prefix);
      if i < j {
        DescendantsAreContiguous(prefix, names[i], d);
      }
      assert j < i;
      assert d == names[at + 1..i][j - at - 1];
    }
  }

  // ---- Counting routes ----

  /** The number of routes of the entries in `names`. */
  function TotalRoutes(names: seq<Name>, t: Table): nat
    requires forall n | n in names :: n in t
  {
    if names == [] then 0
    else TotalRoutes(names[..|names| - 1], t) + |t[names[|names| - 1]].routes|
  }

  lemma {:induction false} TotalSplit(xs: seq<Name>, ys: seq<Name>, t: Table)
    requires forall n | n in xs + ys :: n in t
    ensures forall n | n in xs :: n in t
    ensures forall n | n in ys :: n in t
    ensures TotalRoutes(xs + ys, t) == TotalRoutes(xs, t) + TotalRoutes(ys, t)
  {
    assert forall n | n in xs :: n in xs + ys;
    assert forall n | n in ys :: n in xs + ys;
    if ys == [] {
      assert xs + ys == xs;
    } else {
      var k := |ys| - 1;
      assert (xs + ys)[..|xs + ys| - 1] == xs + ys[..k];
      TotalSplit(xs, ys[..k], t);
    }
  }

  lemma {:induction false} TotalFrame(names: seq<Name>, t: Table, t': Table)
    requires forall n | n in names :: n in t && n in t' && |t[n].routes| == |t'[n].routes|
    ensures TotalRoutes(names, t) == TotalRoutes(names, t')
  {
    if names != [] {
      TotalFrame(names[..|names| - 1], t, t');
    }
  }

  /** One name in the middle accounts for its own routes. */
  lemma {:induction false} TotalAt(xs: seq<Name>, n: Name, ys: seq<Name>, t: Table)
    requires n in t && (forall m | m in xs :: m in t) && (forall m | m in ys :: m in t)
    ensures forall m | m in xs + [n] + ys :: m in t
    ensures TotalRoutes(xs + [n] + ys, t) == TotalRoutes(xs, t) + |t[n].routes| + TotalRoutes(ys, t)
  {
    TotalSplit(xs + [n], ys, t);
    TotalSplit(xs, [n], t);
    assert [n][..0] == [];
  }

  // ---- Face lookup table ----

  type FaceLookupTable = map<Face, seq<Name>>

  predicate ListedOn(fm: FaceLookupTable, f: Face, n: Name) { f in fm && n in fm[f] }

  /** As a set, the list for `f` holds exactly the entries with a route on `f`. */
  ghost predicate FaceMapOk(fm: FaceLookupTable, t: Table) {
    forall f, n :: ListedOn(fm, f, n) <==> n in t && HasFace(t[n].routes, f)
  }

  function PushFace(fm: FaceLookupTable, f: Face, n: Name): FaceLookupTable {
    fm[f := (if f in fm then fm[f] else []) + [n]]
  }

  function DropFace(fm: FaceLookupTable, f: Face, n: Name): FaceLookupTable {
    fm[f := if f in fm then Removed(fm[f], n) else []]
  }

  // ---- Inserting and erasing an entry ----

  /** While `e` adopts: entries in `done` that had its parent now have `e` as parent. */
  ghost predicate Adopting(t: Table, t': Table, e: Name, parent: Option<Name>, done: seq<Name>)
    requires e in t
  {
    && LinksOk(t') && SameContent(t, t') && t'[e].parent == parent
    && forall n | n in t && n != e ::
         t'[n].parent == if n in done && t[n].parent == parent then Some(e) else t[n].parent
  }

  lemma {:induction false} FreshEntryLinks(t: Table, e: Name)
    requires e in t && t[e].parent == None && t[e].children == [] && TreeOk(t - {e})
    ensures LinksOk(t)
  {
    var b := t - {e};
    assert b.Keys == t.Keys - {e};
    forall n | n in t ensures ChildrenOk(t, n) {
      if n == e {
        forall c | c in b ensures t[c].parent != Some(e) {
          assert b[c].parent == ParentOf(b.Keys, c);
        }
      } else {
        assert ChildrenOk(b, n) && b[n] == t[n];
      }
    }
  }

  /** One iteration of the adoption loop in `Rib::insert`. */
  method AdoptNext(ghost t: Table, t': Table, e: Name, parent: Option<Name>, ghost done: seq<Name>, c: Name)
    returns (t'': Table)
    requires e in t && Adopting(t, t', e, parent, done) && c in t && c != e && c !in done
    requires parent.Some? ==> parent.value in t && parent.value < e && e < c
    ensures Adopting(t, t'', e, parent, done + [c])
  {
    t'' := t';
    if t'[c].parent == parent {
      if parent.Some? {
        RemoveChildOk(t'', parent.value, c);
        t'' := RemoveChild(t'', parent.value, c);
      }
      AddChildOk(t'', e, c);
      t'' := AddChild(t'', e, c);
    }
  }

  lemma {:induction false} AdoptionDone(t: Table, t': Table, e: Name, ds: seq<Name>)
    requires e in t && TreeOk(t - {e}) && Adopting(t, t', e, ParentOf(t.Keys, e), ds)
    requires forall d :: d in ds <==> d in t && e < d
    ensures TreeOk(t')
  {
    var b := t - {e};
    var keys := b.Keys;
    assert keys == t.Keys - {e} && keys + {e} == t.Keys == t'.Keys;
    ParentAfterInsert(keys, e, e);
    forall n | n in t' ensures t'[n].parent == ParentOf(t'.Keys, n) {
      if n != e {
        ParentAfterInsert(keys, e, n);
        assert b[n].parent == ParentOf(b.Keys, n) && t[n] == b[n];
      }
    }
  }

  /** The first step of linking: the new entry joins the children of its parent. */
  method JoinParent(t: Table, e: Name, parent: Option<Name>) returns (t': Table)
    requires e in t && t[e].parent == None && LinksOk(t) && parent == ParentOf(t.Keys, e)
    ensures Adopting(t, t', e, parent, [])
  {
    t' := t;
    if parent.Some? {
      AddChildOk(t, parent.value, e);
      t' := AddChild(t, parent.value, e);
    }
  }

  /** The linking part of `Rib::insert` for an entry that has just been put into the table. */
  method LinkEntry(t: Table, names: seq<Name>, e: Name) returns (t': Table)
    requires IsIndex(names, t)
    requires e in t && t[e].parent == None && t[e].children == [] && TreeOk(t - {e})
    ensures TreeOk(t') && SameContent(t, t')
  {
    FreshEntryLinks(t, e);
    var parent := FindParent(t, e);
    t' := JoinParent(t, e, parent);
    var ds := FindDescendants(names, e);
    assert ds[..0] == [];
    for i := 0 to |ds|
      invariant Adopting(t, t', e, parent, ds[..i])
    {
      assert ds[i] in ds && ds[i] !in ds[..i];
      assert ds[..i + 1] == ds[..i] + [ds[i]];
      t' := AdoptNext(t, t', e, parent, ds[..i], ds[i]);
    }
    assert ds[..|ds|] == ds;
    AdoptionDone(t, t', e, ds);
  }

  /** While `e` hands its children over: each child still has `e` as parent or has got the parent of `e`. */
  ghost predicate Releasing(t: Table, t': Table, e: Name)
    requires e in t
  {
    && LinksOk(t') && SameContent(t, t') && t'[e].parent == None
    && forall n | n in t && n != e ::
         t'[n].parent == t[n].parent || (t[n].parent == Some(e) && t'[n].parent == t[e].parent)
  }

  /** Moving `c` from `e` to the parent of `e`, if any. */
  lemma {:induction false} MoveChildOk(t: Table, e: Name, parent: Option<Name>, c: Name)
    requires LinksOk(t) && e in t && c in t && c != e && t[c].parent == Some(e)
    requires parent.Some? ==> parent.value in t && parent.value != e && parent.value != c
    ensures var t1 := RemoveChild(t, e, c);
      var t2 := if parent.Some? then AddChild(t1, parent.value, c) else t1;
      LinksOk(t2) && Reparented(t, t2, c, parent) && |t2[e].children| < |t[e].children|
  {
    assert ChildrenOk(t, e);
    RemoveChildOk(t, e, c);
    if parent.Some? {
      AddChildOk(RemoveChild(t, e, c), parent.value, c);
    }
  }

  /** One iteration of the loop in `Rib::eraseEntry`. */
  method ReleaseNext(ghost t: Table, t': Table, e: Name, parent: Option<Name>) returns (t'': Table)
    requires TreeOk(t) && e in t && Releasing(t, t', e) && parent == t[e].parent && t'[e].children != []
    ensures Releasing(t, t'', e) && |t''[e].children| < |t'[e].children|
  {
    var c := t'[e].children[0];
    assert ChildrenOk(t', e) && c in t'[e].children;
    MoveChildOk(t', e, parent, c);
    t'' := RemoveChild(t', e, c);
    if parent.Some? {
      t'' := AddChild(t'', parent.value, c);
    }
  }

  lemma {:induction false} ReleaseDone(t: Table, t': Table, e: Name)
    requires TreeOk(t) && e in t && Releasing(t, t', e) && t'[e].children == []
    ensures TreeOk(t' - {e})
  {
    var b := t' - {e};
    assert b.Keys == t.Keys - {e};
    forall n | n in b ensures b[n].parent == ParentOf(b.Keys, n) && ChildrenOk(b, n) {
      ParentAfterErase(t.Keys, e, n);
      assert ChildrenOk(t', n) && ChildrenOk(t', e);
      assert !NamesParent(t', n, e);
    }
  }

  /** `Rib::eraseEntry` on the links; the caller removes the entry from the table. */
  method UnlinkEntry(t: Table, e: Name) returns (t': Table)
    requires TreeOk(t) && e in t
    ensures TreeOk(t' - {e}) && SameContent(t, t')
  {
    var parent := t[e].parent;
    t' := t;
    if parent.Some? {
      RemoveChildOk(t', parent.value, e);
      t' := RemoveChild(t', parent.value, e);
    }
    while t'[e].children != []
      invariant Releasing(t, t', e)
      decreases |t'[e].children|
    {
      t' := ReleaseNext(t, t', e, parent);
    }
    ReleaseDone(t, t', e);
  }

  // ---- Changing one entry ----

  lemma {:induction false} TotalUpdate(names: seq<Name>, t: Table, n: Name, x: Entry)
    requires Distinct(names) && n in names && forall m | m in names :: m in t
    ensures TotalRoutes(names, t[n := x]) == TotalRoutes(names, t) - |t[n].routes| + |x.routes|
  {
    var k := |names| - 1;
    if names[k] == n {
      TotalFrame(names[..k], t, t[n := x]);
    } else {
      TotalUpdate(names[..k], t, n, x);
    }
  }

  /** A change of routes and records leaves the tree as it is. */
  lemma {:induction false} TreeFrame(t: Table, n: Name, x: Entry)
    requires TreeOk(t) && n in t && x.parent == t[n].parent && x.children == t[n].children
    ensures TreeOk(t[n := x])
  {
    var t' := t[n := x];
    assert t'.Keys == t.Keys;
    forall m | m in t' ensures t'[m].parent == ParentOf(t'.Keys, m) && ChildrenOk(t', m) {
      assert ChildrenOk(t, m);
    }
  }

  lemma {:induction false} TreeFrameAll(t: Table, t': Table)
    requires TreeOk(t) && t.Keys == t'.Keys
    requires forall m | m in t :: t'[m].parent == t[m].parent && t'[m].children == t[m].children
    ensures TreeOk(t')
  {
    forall m | m in t' ensures t'[m].parent == ParentOf(t'.Keys, m) && ChildrenOk(t', m) {
      assert ChildrenOk(t, m);
    }
  }

  /** A route on a new or known face is added to the entry at `n`. */
  lemma {:induction false} FacePushed(fm: FaceLookupTable, t: Table, n: Name, x: Entry, r: Route)
    requires FaceMapOk(fm, t) && (x.routes == (if n in t then t[n].routes else []) + [r])
    ensures FaceMapOk(PushFace(fm, r.face, n), t[n := x])
  {
    var rs := if n in t then t[n].routes else [];
    forall f, m ensures ListedOn(PushFace(fm, r.face, n), f, m) <==> m in t[n := x] && HasFace(t[n := x][m].routes, f) {
      assert ListedOn(fm, f, m) <==> m in t && HasFace(t[m].routes, f);
      if m == n {
        assert HasFace(x.routes, f) <==> HasFace(rs, f) || f == r.face by {
          assert forall i | 0 <= i < |rs| :: x.routes[i] == rs[i];
          assert x.routes[|rs|] == r;
        }
      }
    }
  }

  lemma {:induction false} FaceReplaced(rs: seq<Route>, i: nat, r: Route, f: Face)
    requires i < |rs| && rs[i].face == r.face
    ensures HasFace(rs[i := r], f) <==> HasFace(rs, f)
  {
    var ss := rs[i := r];
    if k :| 0 <= k < |rs| && rs[k].face == f { assert ss[k].face == f; }
    if k :| 0 <= k < |ss| && ss[k].face == f { assert rs[k].face == f; }
  }

  lemma {:induction false} FaceErased(rs: seq<Route>, i: nat, f: Face)
    requires i < |rs|
    ensures HasFace(rs, f) <==> HasFace(rs[..i] + rs[i + 1..], f) || f == rs[i].face
  {
    var ss := rs[..i] + rs[i + 1..];
    if k :| 0 <= k < |rs| && k != i && rs[k].face == f { assert ss[if k < i then k else k - 1].face == f; }
    if k :| 0 <= k < |ss| && ss[k].face == f { assert rs[if k < i then k else k + 1].face == f; }
  }

  /** The route at `i` of the entry at `n` is overwritten by one on the same face. */
  lemma {:induction false} FaceKept(fm: FaceLookupTable, t: Table, n: Name, i: nat, r: Route)
    requires FaceMapOk(fm, t) && n in t && i < |t[n].routes| && t[n].routes[i].face == r.face
    ensures FaceMapOk(fm, t[n := t[n].(routes := t[n].routes[i := r])])
  {
    var rs := t[n].routes;
    var t' := t[n := t[n].(routes := rs[i := r])];
    forall f, m ensures ListedOn(fm, f, m) <==> m in t' && HasFace(t'[m].routes, f) {
      assert ListedOn(fm, f, m) <==> m in t && HasFace(t[m].routes, f);
      if m == n {
        FaceReplaced(rs, i, r, f);
      }
    }
  }

  /** The route at `i` of the entry at `n` is erased. */
  lemma {:induction false} FaceDropped(fm: FaceLookupTable, t: Table, n: Name, i: nat, x: Entry)
    requires FaceMapOk(fm, t) && n in t && i < |t[n].routes|
    requires x.routes == t[n].routes[..i] + t[n].routes[i + 1..]
    ensures var f0 := t[n].routes[i].face;
      FaceMapOk(if HasFace(x.routes, f0) then fm else DropFace(fm, f0, n), t[n := x])
  {
    var rs := t[n].routes;
    var f0 := rs[i].face;
    var fm' := if HasFace(x.routes, f0) then fm else DropFace(fm, f0, n);
    forall f, m ensures ListedOn(fm', f, m) <==> m in t[n := x] && HasFace(t[n := x][m].routes, f) {
      assert ListedOn(fm, f, m) <==> m in t && HasFace(t[m].routes, f);
      if m == n {
        FaceErased(rs, i, f);
      }
    }
  }

  lemma {:induction false} FaceEntryGone(fm: FaceLookupTable, t: Table, n: Name)
    requires FaceMapOk(fm, t) && n in t && t[n].routes == []
    ensures FaceMapOk(fm, t - {n})
  {
    forall f, m ensures ListedOn(fm, f, m) <==> m in t - {n} && HasFace((t - {n})[m].routes, f) {
      assert ListedOn(fm, f, m) <==> m in t && HasFace(t[m].routes, f);
    }
  }

  // ---- The whole RIB as a value ----

  /** Key list, tree, face table and counter all fit the table, and no entry is empty. */
  ghost predicate RibOk(names: seq<Name>, t: Table, fm: FaceLookupTable, nItems: nat) {
    && IsIndex(names, t) && TreeOk(t) && FaceMapOk(fm, t)
    && (forall n | n in t :: t[n].routes != [])
    && CountOk(names, t, nItems)
  }

  ghost predicate CountOk(names: seq<Name>, t: Table, nItems: nat) {
    (forall n | n in names :: n in t) && nItems == TotalRoutes(names, t)
  }

  function Appended(x: Entry, r: Route): Entry {
    x.(routes := x.routes + [r], nCapture := x.nCapture + if r.capture then 1 else 0)
  }

  lemma {:induction false} RouteAppended(names: seq<Name>, t: Table, fm: FaceLookupTable, k: nat, n: Name, r: Route)
    requires RibOk(names, t, fm, k) && n in t
    ensures RibOk(names, t[n := Appended(t[n], r)], PushFace(fm, r.face, n), k + 1)
  {
    var x := Appended(t[n], r);
    EntryFrame(names, t, n, x, k);
    FacePushed(fm, t, n, x, r);
  }

  /** The parts of the invariant that do not look at faces, when an entry gets other routes. */
  lemma {:induction false} EntryFrame(names: seq<Name>, t: Table, n: Name, x: Entry, k: nat)
    requires IsIndex(names, t) && TreeOk(t) && CountOk(names, t, k) && n in t
    requires x.parent == t[n].parent && x.children == t[n].children && k + |x.routes| >= |t[n].routes|
    ensures IsIndex(names, t[n := x]) && TreeOk(t[n := x])
    ensures CountOk(names, t[n := x], k + |x.routes| - |t[n].routes|)
  {
    SortedIsDistinct(names);
    TreeFrame(t, n, x);
    TotalUpdate(names, t, n, x);
  }

  lemma {:induction false} RouteOverwritten(names: seq<Name>, t: Table, fm: FaceLookupTable, k: nat, n: Name, i: nat,
      r: Route)
    requires RibOk(names, t, fm, k) && n in t && i < |t[n].routes| && t[n].routes[i].face == r.face
    ensures RibOk(names, t[n := t[n].(routes := t[n].routes[i := r])], fm, k)
  {
    var x := t[n].(routes := t[n].routes[i := r]);
    SortedIsDistinct(names);
    TreeFrame(t, n, x);
    TotalUpdate(names, t, n, x);
    FaceKept(fm, t, n, i, r);
  }

  /** A key inserted at position `i`. */
  lemma {:induction false} NameCounted(names: seq<Name>, i: nat, t: Table, t': Table, n: Name, k: nat)
    requires CountOk(names, t, k) && i <= |names| && n !in names && n in t'
    requires forall m | m in t && m != n :: m in t' && |t'[m].routes| == |t[m].routes|
    ensures CountOk(names[..i] + [n] + names[i..], t', k + |t'[n].routes|)
  {
    var xs, ys := names[..i], names[i..];
    assert names == xs + ys;
    TotalSplit(xs, ys, t);
    TotalFrame(xs, t, t');
    TotalFrame(ys, t, t');
    TotalAt(xs, n, ys, t');
  }

  function FreshEntry(r: Route): Entry { Entry([r], if r.capture then 1 else 0, [], None, []) }

  lemma {:induction false} EntryInserted(names: seq<Name>, i: nat, names': seq<Name>, t: Table, t': Table,
      fm: FaceLookupTable, k: nat, n: Name, r: Route)
    requires RibOk(names, t, fm, k) && n !in t && i <= |names| && names' == names[..i] + [n] + names[i..]
    requires SameContent(t[n := FreshEntry(r)], t') && TreeOk(t') && IsIndex(names', t')
    ensures RibOk(names', t', PushFace(fm, r.face, n), k + 1)
  {
    var x := FreshEntry(r);
    assert x.routes == [] + [r];
    NameCounted(names, i, t, t', n, k);
    FacePushed(fm, t, n, x, r);
    FaceSameContent(PushFace(fm, r.face, n), t[n := x], t');
  }

  lemma {:induction false} FaceSameContent(fm: FaceLookupTable, t: Table, t': Table)
    requires FaceMapOk(fm, t) && SameContent(t, t')
    ensures FaceMapOk(fm, t')
  {
    forall f, n ensures ListedOn(fm, f, n) <==> n in t' && HasFace(t'[n].routes, f) {
      assert ListedOn(fm, f, n) <==> n in t && HasFace(t[n].routes, f);
    }
  }

  function FaceMapAfterErase(fm: FaceLookupTable, x: Entry, f: Face, n: Name): FaceLookupTable {
    if HasFace(x.routes, f) then fm else DropFace(fm, f, n)
  }

  lemma {:induction false} RouteErased(names: seq<Name>, t: Table, fm: FaceLookupTable, k: nat, n: Name, i: nat)
    requires RibOk(names, t, fm, k) && n in t && i < |t[n].routes|
    ensures k > 0
    ensures var x := Shortened(t[n], i);
      var t', fm' := t[n := x], FaceMapAfterErase(fm, x, t[n].routes[i].face, n);
      IsIndex(names, t') && TreeOk(t') && FaceMapOk(fm', t') && CountOk(names, t', k - 1)
  {
    var x := Shortened(t[n], i);
    SortedIsDistinct(names);
    TreeFrame(t, n, x);
    TotalUpdate(names, t, n, x);
    FaceDropped(fm, t, n, i, x);
  }

  lemma {:induction false} NameUncounted(names: seq<Name>, i: nat, t: Table, b: Table, n: Name, k: nat)
    requires CountOk(names, t, k) && i < |names| && names[i] == n && Distinct(names) && t[n].routes == []
    requires forall m | m in t && m != n :: m in b && b[m].routes == t[m].routes
    ensures CountOk(names[..i] + names[i + 1..], b, k)
  {
    var xs, ys := names[..i], names[i + 1..];
    assert names == xs + [n] + ys;
    assert n !in xs && n !in ys;
    TotalAt(xs, n, ys, t);
    TotalFrame(xs, t, b);
    TotalFrame(ys, t, b);
    TotalSplit(xs, ys, b);
  }

  lemma {:induction false} EntryErased(names: seq<Name>, i: nat, t: Table, t': Table, fm: FaceLookupTable, k: nat,
      n: Name)
    requires IsIndex(names, t) && FaceMapOk(fm, t) && CountOk(names, t, k)
    requires i < |names| && names[i] == n && t[n].routes == []
    requires SameContent(t, t') && TreeOk(t' - {n}) && IsIndex(names[..i] + names[i + 1..], t' - {n})
    requires forall m | m in t && m != n :: t[m].routes != []
    ensures RibOk(names[..i] + names[i + 1..], t' - {n}, fm, k)
  {
    SortedIsDistinct(names);
    NameUncounted(names, i, t, t' - {n}, n, k);
    FaceEntryGone(fm, t, n);
    FaceSameContent(fm, t - {n}, t' - {n});
  }

  // ---- The edits of the table are those of the specification ----

  lemma {:induction false} PlainAppended(t: Table, n: Name, r: Route)
    requires n in t && IndexOf(t[n].routes, r) == |t[n].routes|
    ensures Plain(t[n := Appended(t[n], r)]) == Edit(Plain(t), RibUpdate(Register, n, r))
  {
  }

  lemma {:induction false} PlainOverwritten(t: Table, n: Name, r: Route)
    requires n in t && IndexOf(t[n].routes, r) < |t[n].routes|
    ensures var i := IndexOf(t[n].routes, r);
      Plain(t[n := t[n].(routes := t[n].routes[i := r])]) == Edit(Plain(t), RibUpdate(Register, n, r))
  {
  }

  lemma {:induction false} PlainInserted(t: Table, t': Table, n: Name, r: Route)
    requires n !in t && SameContent(t[n := FreshEntry(r)], t')
    ensures Plain(t') == Edit(Plain(t), RibUpdate(Register, n, r))
  {
    assert [] + [r] == [r] && Faces([]) == {};
  }

  lemma {:induction false} PlainErased(t: Table, n: Name, r: Route)
    requires n in t && IndexOf(t[n].routes, r) < |t[n].routes|
    ensures var x := Shortened(t[n], IndexOf(t[n].routes, r));
      x.routes != [] ==> Plain(t[n := x]) == Edit(Plain(t), RibUpdate(Unregister, n, r))
  {
  }

  lemma {:induction false} PlainEntryErased(t: Table, t': Table, n: Name, r: Route)
    requires n in t && IndexOf(t[n].routes, r) < |t[n].routes|
    requires Shortened(t[n], IndexOf(t[n].routes, r)).routes == []
    requires SameContent(t[n := Shortened(t[n], IndexOf(t[n].routes, r))], t')
    ensures Plain(t' - {n}) == Edit(Plain(t), RibUpdate(Unregister, n, r))
  {
  }

  lemma {:induction false} ReplayKeepsRib(names: seq<Name>, t: Table, t': Table, fm: FaceLookupTable, k: nat,
      s: seq<RibUpdate>)
    requires RibOk(names, t, fm, k) && Replayed(t, t', s)
    ensures RibOk(names, t', fm, k)
  {
    assert forall n | n in t ::
      t'[n].routes == t[n].routes && t'[n].parent == t[n].parent && t'[n].children == t[n].children;
    TreeFrameAll(t, t');
    TotalFrame(names, t, t');
    forall f, n ensures ListedOn(fm, f, n) <==> n in t' && HasFace(t'[n].routes, f) {
      assert ListedOn(fm, f, n) <==> n in t && HasFace(t[n].routes, f);
    }
  }

  lemma {:induction false} ReplayKeepsRoutes(t: Table, t': Table, s: seq<RibUpdate>)
    requires Replayed(t, t', s) && AllDiffer(Plain(t))
    ensures AllDiffer(Plain(t'))
  {
    forall n | n in Plain(t') ensures RoutesDiffer(Plain(t')[n].routes) {
      assert Plain(t')[n].routes == Plain(t)[n].routes;
    }
  }

  // ---- The routes on a face ----

  function ListOf(fm: FaceLookupTable, f: Face): seq<Name> { if f in fm then fm[f] else [] }

  /** The routes of one entry on a face, in list order. */
  function EntryRoutes(n: Name, rs: seq<Route>, f: Face): seq<(Name, Route)> {
    if rs == [] then []
    else EntryRoutes(n, rs[..|rs| - 1], f) + if rs[|rs| - 1].face == f then [(n, rs[|rs| - 1])] else []
  }

  /** The routes of the listed entries on a face; an entry listed twice contributes twice. */
  function FoundRoutes(entries: seq<Name>, t: Table, f: Face): seq<(Name, Route)>
    requires forall n | n in entries :: n in t
  {
    if entries == [] then []
    else
      var n := entries[|entries| - 1];
      FoundRoutes(entries[..|entries| - 1], t, f) + EntryRoutes(n, t[n].routes, f)
  }

  predicate AllListed(fm: FaceLookupTable, t: Table, f: Face) { forall n | n in ListOf(fm, f) :: n in t }

  lemma {:induction false} ListIsRight(fm: FaceLookupTable, t: Table, f: Face)
    requires FaceMapOk(fm, t)
    ensures AllListed(fm, t, f)
    ensures forall n, r | n in t && r in t[n].routes && r.face == f :: n in ListOf(fm, f)
  {
    forall n ensures n in ListOf(fm, f) <==> n in t && HasFace(t[n].routes, f) {
      assert ListedOn(fm, f, n) <==> n in ListOf(fm, f);
    }
    forall n, r | n in t && r in t[n].routes && r.face == f ensures n in ListOf(fm, f) {
      var i :| 0 <= i < |t[n].routes| && t[n].routes[i] == r;
      assert HasFace(t[n].routes, f);
    }
  }

  lemma {:induction false} FoundInEntry(m: Name, rs: seq<Route>, f: Face, n: Name, r: Route)
    ensures (n, r) in EntryRoutes(m, rs, f) <==> m == n && r in rs && r.face == f
  {
    if rs != [] {
      FoundInEntry(m, rs[..|rs| - 1], f, n, r);
      assert rs == rs[..|rs| - 1] + [rs[|rs| - 1]];
    }
  }

  lemma {:induction false} FoundOnList(entries: seq<Name>, t: Table, f: Face, n: Name, r: Route)
    requires forall m | m in entries :: m in t
    ensures (n, r) in FoundRoutes(entries, t, f) <==> n in entries && r in t[n].routes && r.face == f
  {
    if entries != [] {
      var rest, last := entries[..|entries| - 1], entries[|entries| - 1];
      FoundOnList(rest, t, f, n, r);
      FoundInEntry(last, t[last].routes, f, n, r);
      assert entries == rest + [last];
    }
  }

  class Rib {
    var names: seq<Name>
    var table: Table
    var faceMap: FaceLookupTable
    var nItems: nat

    ghost predicate Linked()
      reads this
    {
      RibOk(names, table, faceMap, nItems)
    }

    /** Links, lookup table and counter are right, and no entry holds a route twice. */
    ghost predicate Valid()
      reads this
    {
      Linked() && AllDiffer(Plain(table))
    }

    constructor ()
      ensures Valid() && table == map[]
    {
      names, table, faceMap, nItems := [], map[], map[], 0;
    }

    /** `Rib::insert`. A new route is counted and registered with its face; an existing one is
        overwritten, which leaves the capture counter alone; a new name is linked into the tree. */
    method Insert(prefix: Name, route: Route)
      requires Valid()
      modifies this
      ensures Valid()
      ensures Plain(table) == Edit(old(Plain(table)), RibUpdate(Register, prefix, route))
      ensures InsertedInto(old(RoutesAt(Plain(table), prefix)), RoutesAt(Plain(table), prefix), route)
      ensures forall m, x :: Holds(Plain(table), m, x) <==>
        (m == prefix && x == route) || (old(Holds(Plain(table), m, x)) && !(m == prefix && SameRoute(x, route)))
    {
      RegisterLaw(Plain(table), prefix, route);
      if prefix in table {
        InsertRouteAt(prefix, route);
      } else {
        InsertEntry(prefix, route);
      }
    }

    method InsertRouteAt(prefix: Name, route: Route)
      requires Linked() && prefix in table
      modifies this
      ensures Linked()
      ensures Plain(table) == Edit(old(Plain(table)), RibUpdate(Register, prefix, route))
    {
      var i := IndexOf(table[prefix].routes, route);
      if i == |table[prefix].routes| {
        AppendRoute(prefix, route);
      } else {
        OverwriteRoute(prefix, route, i);
      }
    }

    method AppendRoute(prefix: Name, route: Route)
      requires Linked() && prefix in table && IndexOf(table[prefix].routes, route) == |table[prefix].routes|
      modifies this
      ensures Linked()
      ensures Plain(table) == Edit(old(Plain(table)), RibUpdate(Register, prefix, route))
    {
      RouteAppended(names, table, faceMap, nItems, prefix, route);
      PlainAppended(table, prefix, route);
      table := table[prefix := Appended(table[prefix], route)];
      nItems := nItems + 1;
      faceMap := PushFace(faceMap, route.face, prefix);
    }

    method OverwriteRoute(prefix: Name, route: Route, i: nat)
      requires Linked() && prefix in table && i == IndexOf(table[prefix].routes, route) < |table[prefix].routes|
      modifies `table
      ensures Linked()
      ensures Plain(table) == Edit(old(Plain(table)), RibUpdate(Register, prefix, route))
    {
      RouteOverwritten(names, table, faceMap, nItems, prefix, i, route);
      PlainOverwritten(table, prefix, route);
      table := table[prefix := table[prefix].(routes := table[prefix].routes[i := route])];
    }

    method InsertEntry(prefix: Name, route: Route)
      requires Linked() && prefix !in table
      modifies this
      ensures Linked()
      ensures Plain(table) == Edit(old(Plain(table)), RibUpdate(Register, prefix, route))
    {
      names, table := LinkNewEntry(names, table, prefix, route, faceMap, nItems);
      faceMap := PushFace(faceMap, route.face, prefix);
      nItems := nItems + 1;
    }

    static method LinkNewEntry(names: seq<Name>, t: Table, n: Name, r: Route, ghost fm: FaceLookupTable, ghost k: nat)
      returns (names': seq<Name>, t': Table)
      requires RibOk(names, t, fm, k) && n !in t
      ensures RibOk(names', t', PushFace(fm, r.face, n), k + 1)
      ensures Plain(t') == Edit(Plain(t), RibUpdate(Register, n, r))
    {
      var added := t[n := FreshEntry(r)];
      assert added - {n} == t;
      ghost var i;
      names', i := InsertName(names, n);
      t' := LinkEntry(added, names', n);
      EntryInserted(names, i, names', t, t', fm, k, n, r);
      PlainInserted(t, t', n, r);
    }

    /** `Rib::erase`. The face is unregistered when the entry has no other route on it; an entry
        without routes is unlinked and removed. */
    method Erase(prefix: Name, route: Route)
      requires Valid()
      modifies this
      ensures Valid()
      ensures Plain(table) == Edit(old(Plain(table)), RibUpdate(Unregister, prefix, route))
      ensures RoutesAt(Plain(table), prefix) == Others(old(RoutesAt(Plain(table), prefix)), route)
      ensures forall m, x :: Holds(Plain(table), m, x) <==>
        old(Holds(Plain(table), m, x)) && !(m == prefix && SameRoute(x, route))
    {
      UnregisterLaw(Plain(table), prefix, route);
      if prefix in table {
        var i := IndexOf(table[prefix].routes, route);
        if i < |table[prefix].routes| {
          EraseRoute(prefix, route, i);
        }
      }
    }

    method EraseRoute(prefix: Name, route: Route, i: nat)
      requires Linked() && prefix in table && i == IndexOf(table[prefix].routes, route) < |table[prefix].routes|
      modifies this
      ensures Linked()
      ensures Plain(table) == Edit(old(Plain(table)), RibUpdate(Unregister, prefix, route))
    {
      RouteErased(names, table, faceMap, nItems, prefix, i);
      var x := Shortened(table[prefix], i);
      nItems := nItems - 1;
      faceMap := FaceMapAfterErase(faceMap, x, route.face, prefix);
      if x.routes != [] {
        PlainErased(table, prefix, route);
        table := table[prefix := x];
      } else {
        EraseEntry(prefix, route, x);
      }
    }

    /** The route list of the entry has become empty: `x` is what remains of it. */
    method EraseEntry(prefix: Name, route: Route, x: Entry)
      requires prefix in table && IndexOf(table[prefix].routes, route) < |table[prefix].routes|
      requires x == Shortened(table[prefix], IndexOf(table[prefix].routes, route)) && x.routes == []
      requires var t := table[prefix := x];
        IsIndex(names, t) && TreeOk(t) && FaceMapOk(faceMap, t) && CountOk(names, t, nItems)
      requires forall n | n in table :: table[n].routes != []
      modifies this
      ensures Linked()
      ensures Plain(table) == Edit(old(Plain(table)), RibUpdate(Unregister, prefix, route))
    {
      var t := table[prefix := x];
      var t' := UnlinkEntry(t, prefix);
      var names', k := RemoveName(names, prefix);
      EntryErased(names, k, t, t', faceMap, nItems, prefix);
      PlainEntryErased(table, t', prefix, route);
      names, table := names', t' - {prefix};
    }

    /** `Rib::modifyInheritedRoutes`. Every record must name an entry, as the source asserts. */
    method ModifyInheritedRoutes(records: seq<RibUpdate>)
      requires Valid() && RecordsOk(records) && forall u | u in records :: u.name in table
      modifies `table
      ensures Valid() && Replayed(old(table), table, records) && ReplayedRoutes(old(table), table, records)
    {
      var t' := Replay(table, records);
      ReplayKeepsRoutes(table, t', records);
      ReplayKeepsRib(names, table, t', faceMap, nItems, records);
      table := t';
    }

    static method Replay(t: Table, records: seq<RibUpdate>) returns (t': Table)
      requires RecordsOk(records) && forall u | u in records :: u.name in t
      ensures Replayed(t, t', records) && ReplayedRoutes(t, t', records)
    {
      t' := t;
      for i := 0 to |records|
        invariant Replayed(t, t', records[..i]) && ReplayedRoutes(t, t', records[..i])
      {
        assert records[i] in records;
        ReplayRoutesNext(t, t', records[..i], records[i]);
        ReplayNext(t, t', records[..i], records[i]);
        assert records[..i + 1] == records[..i] + [records[i]];
        t' := t'[records[i].name := ReplayOne(t'[records[i].name], records[i])];
      }
      assert records[..|records|] == records;
    }

    /** `Rib::findRoutesWithFaceId`: complete and sound. An entry listed several times for the face, as
        one with several routes there is, contributes its routes that many times. */
    method FindRoutesWithFaceId(f: Face) returns (routes: seq<(Name, Route)>)
      requires Valid()
      ensures forall n, r :: (n, r) in routes <==> n in table && r in table[n].routes && r.face == f
      ensures AllListed(faceMap, table, f) && routes == FoundRoutes(ListOf(faceMap, f), table, f)
    {
      ListIsRight(faceMap, table, f);
      routes := RoutesOfEntries(ListOf(faceMap, f), table, f);
      forall n, r ensures (n, r) in routes <==> n in table && r in table[n].routes && r.face == f {
        FoundOnList(ListOf(faceMap, f), table, f, n, r);
      }
    }

    static method RoutesOfEntries(entries: seq<Name>, t: Table, f: Face) returns (routes: seq<(Name, Route)>)
      requires forall n | n in entries :: n in t
      ensures routes == FoundRoutes(entries, t, f)
    {
      routes := [];
      for i := 0 to |entries|
        invariant routes == FoundRoutes(entries[..i], t, f)
      {
        assert entries[i] in entries;
        assert entries[..i + 1][..i] == entries[..i];
        var more := RoutesOn(entries[i], t[entries[i]].routes, f);
        routes := routes + more;
      }
      assert entries[..|entries|] == entries;
    }

    static method RoutesOn(n: Name, rs: seq<Route>, f: Face) returns (routes: seq<(Name, Route)>)
      ensures routes == EntryRoutes(n, rs, f)
    {
      routes := [];
      for i := 0 to |rs|
        invariant routes == EntryRoutes(n, rs[..i], f)
      {
        assert rs[..i + 1][..i] == rs[..i];
        if rs[i].face == f {
          routes := routes + [(n, rs[i])];
        }
      }
      assert rs[..|rs|] == rs;
    }
  }
}
