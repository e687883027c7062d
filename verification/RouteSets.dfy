/** `Rib::RouteSet`: routes ordered by face, at most one per face; insertion keeps what is there. */
module RouteSets {
  import opened Options
  import opened RibSpec

  type RouteSet = seq<Route>

  predicate SetOk(s: RouteSet) { forall i, j | 0 <= i < j < |s| :: s[i].face < s[j].face }

  function SetFind(s: RouteSet, f: Face): (c: Option<Route>)
    ensures c.Some? ==> c.value in s && c.value.face == f
    ensures c.None? ==> forall i | 0 <= i < |s| :: s[i].face != f
  {
    if s == [] then None else if s[0].face == f then Some(s[0]) else SetFind(s[1..], f)
  }

  lemma {:induction false} SetFindAt(s: RouteSet, i: nat)
    requires SetOk(s) && i < |s|
    ensures SetFind(s, s[i].face) == Some(s[i])
  {
  }

  function SetInsert(s: RouteSet, r: Route): (t: RouteSet)
    requires SetOk(s)
    ensures SetOk(t)
    ensures forall x :: x in t <==> x in s || (x == r && SetFind(s, r.face).None?)
  {
    if s == [] then [r]
    else if r.face < s[0].face then [r] + s
    else if r.face == s[0].face then s
    else
      var t' := SetInsert(s[1..], r);
      assert forall i | 0 <= i < |t'| :: t'[i] in t' && s[0].face < t'[i].face;
      [s[0]] + t'
  }

  lemma {:induction false} SetInsertFinds(s: RouteSet, r: Route, f: Face)
    requires SetOk(s)
    ensures SetFind(SetInsert(s, r), f) ==
            if f == r.face && SetFind(s, f).None? then Some(r) else SetFind(s, f)
  {
    var t := SetInsert(s, r);
    assert SetFind(s, r.face).None? ==> r in t;
    if SetFind(t, f).Some? && SetFind(s, f).Some? {
      var i :| 0 <= i < |t| && t[i] == SetFind(s, f).value;
      SetFindAt(t, i);
    }
  }

  function SetErase(s: RouteSet, f: Face): (t: RouteSet)
    requires SetOk(s)
    ensures SetOk(t)
    ensures forall x :: x in t <==> x in s && x.face != f
  {
    if s == [] then []
    else if s[0].face == f then s[1..]
    else
      var t' := SetErase(s[1..], f);
      assert forall i | 0 <= i < |t'| :: t'[i] in t' && s[0].face < t'[i].face;
      [s[0]] + t'
  }

  lemma {:induction false} SetEraseFinds(s: RouteSet, f: Face, g: Face)
    requires SetOk(s)
    ensures SetFind(SetErase(s, f), g) == if g == f then None else SetFind(s, g)
  {
    var t := SetErase(s, f);
    if g != f && SetFind(s, g).Some? {
      var i :| 0 <= i < |t| && t[i] == SetFind(s, g).value;
      SetFindAt(t, i);
    }
  }

  lemma {:induction false} FindGrows(s: RouteSet, i: nat)
    requires SetOk(s) && i < |s|
    ensures SetOk(s[..i]) && SetOk(s[..i + 1])
    ensures forall f :: SetFind(s[..i + 1], f) == if f == s[i].face then Some(s[i]) else SetFind(s[..i], f)
  {
    var t := s[..i + 1];
    SetFindAt(t, i);
    forall f: Face | f != s[i].face ensures SetFind(t, f) == SetFind(s[..i], f) {
      if k :| 0 <= k < i && s[k].face == f {
        SetFindAt(t, k);
        SetFindAt(s[..i], k);
      }
    }
  }

  /** The routes of a set on whose face `rs` has no child-inheriting route. */
  function Unclaimed(s: RouteSet, rs: seq<Route>): (u: RouteSet)
    ensures forall r :: r in u <==> r in s && !InheritsOn(rs, r.face)
  {
    if s == [] then []
    else Unclaimed(s[..|s| - 1], rs) + (if InheritsOn(rs, s[|s| - 1].face) then [] else [s[|s| - 1]])
  }

  lemma {:induction false} UnclaimedOk(s: RouteSet, rs: seq<Route>)
    requires SetOk(s)
    ensures SetOk(Unclaimed(s, rs))
  {
    if s != [] {
      var k := |s| - 1;
      UnclaimedOk(s[..k], rs);
      var v := Unclaimed(s[..k], rs);
      forall i | 0 <= i < |v| ensures v[i].face < s[k].face {
        assert v[i] in s[..k];
      }
    }
  }

  lemma {:induction false} UnclaimedFinds(s: RouteSet, rs: seq<Route>, f: Face)
    requires SetOk(s)
    ensures SetFind(Unclaimed(s, rs), f) == If(!InheritsOn(rs, f), SetFind(s, f))
  {
    UnclaimedOk(s, rs);
    var u := Unclaimed(s, rs);
    if !InheritsOn(rs, f) && SetFind(s, f).Some? {
      var i :| 0 <= i < |u| && u[i] == SetFind(s, f).value;
      SetFindAt(u, i);
    }
  }

  /** The erasing loop at position `j` of the original set: what has been kept, then what is left. */
  function Partly(s: RouteSet, rs: seq<Route>, j: nat): RouteSet
    requires j <= |s|
  {
    Unclaimed(s[..j], rs) + s[j..]
  }

  lemma {:induction false} PartlyStep(s: RouteSet, rs: seq<Route>, j: nat)
    requires j < |s|
    ensures var i, t := |Unclaimed(s[..j], rs)|, Partly(s, rs, j);
      && i < |t| && t[i] == s[j]
      && (InheritsOn(rs, s[j].face) ==> Partly(s, rs, j + 1) == t[..i] + t[i + 1..] && |Unclaimed(s[..j + 1], rs)| == i)
      && (!InheritsOn(rs, s[j].face) ==> Partly(s, rs, j + 1) == t && |Unclaimed(s[..j + 1], rs)| == i + 1)
  {
    assert s[..j + 1][..j] == s[..j];
    assert s[j..] == [s[j]] + s[j + 1..];
  }

  /** Where the erasing loop starts and where it ends. */
  lemma {:induction false} PartlyEnds(s: RouteSet, rs: seq<Route>, j: nat)
    requires j <= |s|
    ensures Partly(s, rs, 0) == s && Unclaimed(s[..0], rs) == []
    ensures |Partly(s, rs, j)| <= |Unclaimed(s[..j], rs)| ==> j == |s| && Partly(s, rs, j) == Unclaimed(s, rs)
  {
    assert s[..|s|] == s;
  }

  /** Erase the route on the face of `r`, then insert `r`. */
  function SetReplace(s: RouteSet, r: Route): RouteSet
    requires SetOk(s)
  {
    SetInsert(SetErase(s, r.face), r)
  }

  lemma {:induction false} SetReplaceFinds(s: RouteSet, r: Route)
    requires SetOk(s)
    ensures forall f :: SetFind(SetReplace(s, r), f) == if f == r.face then Some(r) else SetFind(s, f)
  {
    forall f: Face ensures SetFind(SetReplace(s, r), f) == if f == r.face then Some(r) else SetFind(s, f) {
      SetEraseFinds(s, r.face, f);
      SetInsertFinds(SetErase(s, r.face), r, f);
    }
  }
}
