/** The Exclude selector: a set of name components kept as a list of keys in descending order, where
    an ANY flag extends a key up to the next greater one. */
module Exclude {
  import opened Components

  /** A component or negative infinity. */
  datatype Key = NegInf | At(comp: Component)

  predicate Below(a: Key, b: Key) {
    b.At? && (a.At? ==> Less(a.comp, b.comp))
  }

  predicate AtMost(a: Key, b: Key) { a == b || Below(a, b) }

  lemma {:induction false} BelowFacts(a: Key, b: Key, c: Key)
    ensures !(Below(a, b) && Below(b, a)) && !Below(a, a)
    ensures a == b || Below(a, b) || Below(b, a)
    ensures Below(a, b) && Below(b, c) ==> Below(a, c)
  {
    if a.At? {
      CompareFlip(a.comp, a.comp);
    }
    if a.At? && b.At? {
      CompareFlip(a.comp, b.comp);
      if c.At? && Below(a, b) && Below(b, c) {
        CompareTransitive(a.comp, b.comp, c.comp);
      }
    }
  }

  /** `Below` is a strict total order. */
  lemma {:induction false} TotalOrder()
    ensures forall a, b :: Below(a, b) ==> !Below(b, a) && a != b
    ensures forall a, b :: a == b || Below(a, b) || Below(b, a)
    ensures forall a, b, c :: Below(a, b) && Below(b, c) ==> Below(a, c)
  {
    forall a, b, c ensures Below(a, b) ==> !Below(b, a) && a != b
      ensures a == b || Below(a, b) || Below(b, a)
      ensures Below(a, b) && Below(b, c) ==> Below(a, c)
    {
      BelowFacts(a, b, c);
    }
  }

  datatype Entry = Entry(key: Key, any: bool)

  type Entries = seq<Entry>

  predicate Sorted(s: Entries) { forall i, j | 0 <= i < j < |s| :: Below(s[j].key, s[i].key) }

  /** First position whose key is at most `k`. */
  function LowerBound(s: Entries, k: Key): (i: nat)
    ensures i <= |s|
    ensures i < |s| ==> AtMost(s[i].key, k)
    ensures forall j | 0 <= j < i :: !AtMost(s[j].key, k)
  {
    if s == [] || AtMost(s[0].key, k) then 0 else 1 + LowerBound(s[1..], k)
  }

  predicate IsExcluded(s: Entries, c: Component) {
    var i := LowerBound(s, At(c));
    i < |s| && (s[i].any || s[i].key == At(c))
  }

  // ---- Operations ----

  function Insert(s: Entries, i: nat, e: Entry): Entries
    requires i <= |s|
  {
    s[..i] + [e] + s[i..]
  }

  function ExcludeOne(s: Entries, c: Component): Entries {
    if IsExcluded(s, c) then s else Insert(s, LowerBound(s, At(c)), Entry(At(c), false))
  }

  /** Makes sure that the entry at the lower bound of `from` carries ANY. */
  function OpenAt(s: Entries, from: Key): Entries {
    var i := LowerBound(s, from);
    if i < |s| && s[i].any then s
    else if i < |s| && s[i].key == from then s[i := Entry(from, true)]
    else Insert(s, i, Entry(from, true))
  }

  /** Closes the range that starts at position `i` with the key `to`, dropping what lies between. */
  function CloseAt(s: Entries, i: nat, to: Key): Entries
    requires i < |s| && LowerBound(s, to) <= i
  {
    var j := LowerBound(s, to);
    if j < i && s[j].any then s[..j] + s[i..]
    else if s[j].key == to then s[..j + 1] + s[i..]
    else s[..j] + [Entry(to, false)] + s[i..]
  }

  lemma {:induction false} JoinAround(top: Entries, e: Entry, rest: Entries)
    requires Sorted(top) && Sorted(rest)
    requires forall i, j | 0 <= i < |top| && 0 <= j < |rest| :: Below(rest[j].key, top[i].key)
    requires forall k | 0 <= k < |rest| :: Below(rest[k].key, e.key)
    requires forall k | 0 <= k < |top| :: Below(e.key, top[k].key)
    ensures Sorted(top + [e] + rest)
  {
    JoinSorted(top, [e]);
    forall i, j | 0 <= i < |top + [e]| && 0 <= j < |rest| ensures Below(rest[j].key, (top + [e])[i].key) {
      assert i < |top| ==> (top + [e])[i] == top[i];
    }
    JoinSorted(top + [e], rest);
  }

  lemma {:induction false} JoinSorted(a: Entries, b: Entries)
    requires Sorted(a) && Sorted(b)
    requires forall i, j | 0 <= i < |a| && 0 <= j < |b| :: Below(b[j].key, a[i].key)
    ensures Sorted(a + b)
  {
  }

  lemma {:induction false} BeforeLowerBound(s: Entries, k: Key, j: nat)
    requires j < LowerBound(s, k)
    ensures Below(k, s[j].key)
  {
    BelowFacts(k, s[j].key, k);
  }

  lemma {:induction false} FromLowerBound(s: Entries, k: Key, j: nat)
    requires Sorted(s) && LowerBound(s, k) <= j < |s|
    ensures AtMost(s[j].key, k)
  {
    BelowFacts(s[j].key, s[LowerBound(s, k)].key, k);
  }

  /** A lower bound is the only position with its two properties. */
  lemma {:induction false} LowerBoundIs(s: Entries, k: Key, i: nat)
    requires i <= |s| && (i < |s| ==> AtMost(s[i].key, k)) && forall j | 0 <= j < i :: !AtMost(s[j].key, k)
    ensures LowerBound(s, k) == i
  {
  }

  lemma {:induction false} InsertSorted(s: Entries, e: Entry)
    requires Sorted(s)
    requires var i := LowerBound(s, e.key); i < |s| ==> s[i].key != e.key
    ensures Sorted(Insert(s, LowerBound(s, e.key), e))
  {
    var i := LowerBound(s, e.key);
    var top, rest := s[..i], s[i..];
    forall k | 0 <= k < |rest| ensures Below(rest[k].key, e.key) {
      BelowFacts(rest[k].key, s[i].key, e.key);
    }
    forall k | 0 <= k < |top| ensures Below(e.key, top[k].key) {
      BeforeLowerBound(s, e.key, k);
    }
    JoinAround(top, e, rest);
  }

  lemma {:induction false} OpenSorted(s: Entries, from: Key)
    requires Sorted(s)
    ensures Sorted(OpenAt(s, from))
  {
    var i, t := LowerBound(s, from), OpenAt(s, from);
    if i < |s| && (s[i].any || s[i].key == from) {
      assert |t| == |s| && forall k | 0 <= k < |s| :: t[k].key == s[k].key;
    } else {
      InsertSorted(s, Entry(from, true));
    }
  }

  lemma {:induction false} OpenPosition(s: Entries, from: Key, to: Key)
    requires Sorted(s) && Below(from, to)
    ensures var t, i := OpenAt(s, from), LowerBound(s, from);
      Sorted(t) && i < |t| && t[i].any && AtMost(t[i].key, from) && LowerBound(t, to) <= i
  {
    OpenSorted(s, from);
    var t, i := OpenAt(s, from), LowerBound(s, from);
    BelowFacts(t[i].key, from, to);
  }

  function ExcludeRange(s: Entries, from: Key, to: Component): Entries
    requires Sorted(s) && Below(from, At(to))
  {
    OpenPosition(s, from, At(to));
    CloseAt(OpenAt(s, from), LowerBound(s, from), At(to))
  }

  function ExcludeAfter(s: Entries, from: Component): Entries
    requires Sorted(s)
  {
    var i := LowerBound(s, At(from));
    var t := OpenAt(s, At(from));
    if i < |t| then t[i..] else t
  }

  // ---- Meaning ----

  /** The entry with the greatest key that is at most `k`. */
  ghost predicate IsFloor(s: Entries, e: Entry, k: Key) {
    e in s && AtMost(e.key, k) && forall x | x in s && AtMost(x.key, k) :: AtMost(x.key, e.key)
  }

  lemma {:induction false} FloorDecides(s: Entries, e: Entry, c: Component)
    requires Sorted(s) && IsFloor(s, e, At(c))
    ensures IsExcluded(s, c) <==> e.any || e.key == At(c)
    ensures LowerBound(s, At(c)) < |s| && s[LowerBound(s, At(c))] == e
  {
    TotalOrder();
    var i := LowerBound(s, At(c));
    var j :| 0 <= j < |s| && s[j] == e;
    assert i <= j;
    assert s[i] in s;
  }

  lemma {:induction false} NoFloor(s: Entries, c: Component)
    requires forall x | x in s :: Below(At(c), x.key)
    ensures !IsExcluded(s, c)
  {
    TotalOrder();
    assert forall j | 0 <= j < |s| :: s[j] in s;
  }

  /** The floor in a sorted list, if there is one. */
  lemma {:induction false} FindFloor(s: Entries, k: Key) returns (e: Entry)
    requires Sorted(s) && exists x :: x in s && AtMost(x.key, k)
    ensures IsFloor(s, e, k)
  {
    TotalOrder();
    var i := LowerBound(s, k);
    e := s[i];
    forall x | x in s && AtMost(x.key, k) ensures AtMost(x.key, e.key) {
      var j :| 0 <= j < |s| && s[j] == x;
    }
  }

  predicate InRange(from: Key, to: Component, c: Component) { AtMost(from, At(c)) && AtMost(At(c), At(to)) }

  /** `c` lies above `to` in an existing range that already holds both ends of the new one. */
  predicate CutOff(s: Entries, from: Key, to: Component, c: Component) {
    var i := LowerBound(s, from);
    i < |s| && s[i].any && LowerBound(s, At(to)) == i && LowerBound(s, At(c)) == i && Below(At(to), At(c))
  }

  // ---- What the operations keep ----

  /** The entry at which a range from `from` starts. */
  function StartOf(s: Entries, from: Key): Entry {
    var i := LowerBound(s, from);
    if i < |s| && s[i].any then s[i] else Entry(from, true)
  }

  lemma {:induction false} LowerBoundSplits(s: Entries, k: Key, x: Entry)
    requires Sorted(s)
    ensures x in s[..LowerBound(s, k)] <==> x in s && Below(k, x.key)
    ensures x in s[LowerBound(s, k)..] <==> x in s && AtMost(x.key, k)
  {
    InParts(s, LowerBound(s, k), x);
    BelowFacts(k, x.key, k);
    if x in s[..LowerBound(s, k)] {
      UpperPart(s, k, x);
    }
    if x in s[LowerBound(s, k)..] {
      LowerPart(s, k, x);
    }
  }

  lemma {:induction false} InParts(s: Entries, i: nat, x: Entry)
    requires i <= |s|
    ensures x in s <==> x in s[..i] || x in s[i..]
  {
    assert s == s[..i] + s[i..];
  }

  lemma {:induction false} UpperPart(s: Entries, k: Key, x: Entry)
    requires x in s[..LowerBound(s, k)]
    ensures Below(k, x.key)
  {
    var top := s[..LowerBound(s, k)];
    var j :| 0 <= j < |top| && top[j] == x;
    BeforeLowerBound(s, k, j);
  }

  lemma {:induction false} LowerPart(s: Entries, k: Key, x: Entry)
    requires Sorted(s) && x in s[LowerBound(s, k)..]
    ensures AtMost(x.key, k)
  {
    var rest := s[LowerBound(s, k)..];
    var j :| 0 <= j < |rest| && rest[j] == x;
    FromLowerBound(s, k, LowerBound(s, k) + j);
  }

  /** What lies behind position `i` has smaller keys. */
  lemma {:induction false} BehindPosition(s: Entries, i: nat, x: Entry)
    requires Sorted(s) && i < |s|
    ensures x in s[i + 1..] <==> x in s && Below(x.key, s[i].key)
  {
    if x in s[i + 1..] {
      var j :| 0 <= j < |s[i + 1..]| && s[i + 1..][j] == x;
      assert s[i + 1 + j] == x;
    }
    if x in s && Below(x.key, s[i].key) {
      var j :| 0 <= j < |s| && s[j] == x;
      BelowFacts(s[j].key, s[i].key, s[j].key);
      assert s[i + 1..][j - i - 1] == x;
    }
  }

  lemma {:induction false} OpenMembers(s: Entries, from: Key, x: Entry)
    requires Sorted(s)
    ensures var t, i, lo := OpenAt(s, from), LowerBound(s, from), StartOf(s, from);
      && i < |t| && t[i] == lo && lo.any && AtMost(lo.key, from)
      && (x in t[..i] <==> x in s && Below(from, x.key))
      && (x in t[i + 1..] <==> x in s && Below(x.key, lo.key))
  {
    var t, i := OpenAt(s, from), LowerBound(s, from);
    LowerBoundSplits(s, from, x);
    assert t[..i] == s[..i];
    if i < |s| && (s[i].any || s[i].key == from) {
      BehindPosition(s, i, x);
      assert t[i + 1..] == s[i + 1..];
    } else {
      assert t[i + 1..] == s[i..];
      if x in s {
        NotAmong(s, from, x);
      }
    }
  }

  /** A key that is not at its lower bound is not in the list. */
  lemma {:induction false} NotAmong(s: Entries, k: Key, x: Entry)
    requires Sorted(s) && x in s
    requires var i := LowerBound(s, k); i < |s| ==> s[i].key != k
    ensures x.key != k
  {
    var j :| 0 <= j < |s| && s[j] == x;
    var i := LowerBound(s, k);
    if x.key == k && i < |s| {
      BelowFacts(x.key, s[i].key, k);
    }
  }

  /** The upper end of the new range lies in an existing range other than the one it starts in, so
      the new range runs on to the end of that one. */
  predicate Swallows(s: Entries, from: Key, to: Component)
    requires Sorted(s) && Below(from, At(to))
  {
    OpenPosition(s, from, At(to));
    var t := OpenAt(s, from);
    var j := LowerBound(t, At(to));
    j < LowerBound(s, from) && t[j].any
  }

  lemma {:induction false} CloseSorted(t: Entries, i: nat, to: Key)
    requires Sorted(t) && i < |t| && LowerBound(t, to) <= i && Below(t[i].key, to)
    ensures Sorted(CloseAt(t, i, to))
  {
    var j := LowerBound(t, to);
    var top, rest, e := t[..j], t[i..], Entry(to, false);
    if j < i && t[j].any {
      JoinSorted(top, rest);
    } else if t[j].key == to {
      assert j < i by { BelowFacts(to, to, to); }
      JoinSorted(t[..j + 1], rest);
    } else {
      forall k | 0 <= k < |rest| ensures Below(rest[k].key, to) {
        BelowFacts(rest[k].key, t[i].key, to);
      }
      forall k | 0 <= k < |top| ensures Below(to, top[k].key) {
        BelowFacts(to, top[k].key, to);
      }
      JoinAround(top, e, rest);
    }
  }

  lemma {:induction false} CloseMembers(t: Entries, i: nat, to: Key, x: Entry)
    requires Sorted(t) && i < |t| && LowerBound(t, to) <= i && Below(t[i].key, to)
    ensures var j := LowerBound(t, to);
      x in CloseAt(t, i, to) <==>
        x in t[i..] || (x in t && Below(to, x.key)) || (x == Entry(to, false) && !(j < i && t[j].any))
  {
    TotalOrder();
    var j := LowerBound(t, to);
    LowerBoundSplits(t, to, x);
    if !(j < i && t[j].any) && t[j].key == to {
      assert t[..j + 1] == t[..j] + [t[j]];
    }
  }

  lemma {:induction false} RangeMembers(s: Entries, from: Key, to: Component, x: Entry)
    requires Sorted(s) && Below(from, At(to))
    ensures Sorted(ExcludeRange(s, from, to))
    ensures var lo := StartOf(s, from);
      x in ExcludeRange(s, from, to) <==>
        || x == lo
        || (x in s && Below(x.key, lo.key))
        || (x in s && Below(At(to), x.key))
        || (x == Entry(At(to), false) && !Swallows(s, from, to))
  {
    OpenPosition(s, from, At(to));
    OpenMembers(s, from, x);
    var t, i, lo := OpenAt(s, from), LowerBound(s, from), StartOf(s, from);
    BelowFacts(lo.key, from, At(to));
    BelowFacts(from, At(to), x.key);
    BelowFacts(x.key, lo.key, At(to));
    BelowFacts(At(to), x.key, At(to));
    CloseSorted(t, i, At(to));
    CloseMembers(t, i, At(to), x);
    assert t == t[..i] + [t[i]] + t[i + 1..] && t[i..] == [t[i]] + t[i + 1..];
  }

  /** Exactly what a range adds and loses, component by component. */
  lemma {:induction false} RangeAt(s: Entries, from: Key, to: Component, c: Component)
    requires Sorted(s) && Below(from, At(to))
    ensures IsExcluded(ExcludeRange(s, from, to), c) <==>
            (IsExcluded(s, c) && !CutOff(s, from, to, c)) || InRange(from, to, c)
  {
    TotalOrder();
    var r, lo := ExcludeRange(s, from, to), StartOf(s, from);
    forall x ensures x in r <==> (x == lo || (x in s && Below(x.key, lo.key)) || (x in s && Below(At(to), x.key))
                                  || (x == Entry(At(to), false) && !Swallows(s, from, to)))
    {
      RangeMembers(s, from, to, x);
    }
    OpenMembers(s, from, lo);
    if Below(At(c), lo.key) {
      RangeBelow(s, from, to, c);
    } else if Below(At(to), At(c)) {
      RangeAbove(s, from, to, c);
    } else {
      RangeInside(s, from, to, c);
    }
  }

  lemma {:induction false} RangeBelow(s: Entries, from: Key, to: Component, c: Component)
    requires Sorted(s) && Below(from, At(to)) && Below(At(c), StartOf(s, from).key)
    ensures IsExcluded(ExcludeRange(s, from, to), c) <==> IsExcluded(s, c)
    ensures !CutOff(s, from, to, c) && !InRange(from, to, c)
  {
    TotalOrder();
    var r, lo := ExcludeRange(s, from, to), StartOf(s, from);
    OpenMembers(s, from, lo);
    RangeMembers(s, from, to, lo);
    if exists x :: x in s && AtMost(x.key, At(c)) {
      var f := FindFloor(s, At(c));
      FloorDecides(s, f, c);
      forall x | x in r && AtMost(x.key, At(c)) ensures AtMost(x.key, f.key) {
        RangeMembers(s, from, to, x);
      }
      RangeMembers(s, from, to, f);
      FloorDecides(r, f, c);
    } else {
      NoFloor(s, c);
      forall x | x in r ensures Below(At(c), x.key) {
        RangeMembers(s, from, to, x);
      }
      NoFloor(r, c);
    }
  }

  lemma {:induction false} RangeInside(s: Entries, from: Key, to: Component, c: Component)
    requires Sorted(s) && Below(from, At(to))
    requires AtMost(StartOf(s, from).key, At(c)) && AtMost(At(c), At(to))
    ensures IsExcluded(ExcludeRange(s, from, to), c)
    ensures IsExcluded(s, c) || InRange(from, to, c)
    ensures !CutOff(s, from, to, c)
  {
    TotalOrder();
    var r, lo := ExcludeRange(s, from, to), StartOf(s, from);
    OpenMembers(s, from, lo);
    RangeMembers(s, from, to, lo);
    var f := if c == to && !Swallows(s, from, to) then Entry(At(to), false) else lo;
    RangeMembers(s, from, to, f);
    forall x | x in r && AtMost(x.key, At(c)) ensures AtMost(x.key, f.key) {
      RangeMembers(s, from, to, x);
    }
    FloorDecides(r, f, c);
    if !InRange(from, to, c) {
      forall x | x in s && AtMost(x.key, At(c)) ensures AtMost(x.key, lo.key) {
        LowerBoundSplits(s, from, x);
      }
      FloorDecides(s, lo, c);
    }
  }

  lemma {:induction false} RangeAbove(s: Entries, from: Key, to: Component, c: Component)
    requires Sorted(s) && Below(from, At(to)) && Below(At(to), At(c))
    ensures IsExcluded(ExcludeRange(s, from, to), c) <==> IsExcluded(s, c) && !CutOff(s, from, to, c)
    ensures !InRange(from, to, c)
  {
    TotalOrder();
    var r, lo := ExcludeRange(s, from, to), StartOf(s, from);
    OpenMembers(s, from, lo);
    RangeMembers(s, from, to, lo);
    if exists x :: x in s && AtMost(x.key, At(c)) && Below(At(to), x.key) {
      var f := FindFloor(s, At(c));
      FloorDecides(s, f, c);
      RangeMembers(s, from, to, f);
      forall x | x in r && AtMost(x.key, At(c)) ensures AtMost(x.key, f.key) {
        RangeMembers(s, from, to, x);
      }
      FloorDecides(r, f, c);
    } else {
      RangeGap(s, from, to, c);
    }
  }

  /** Above `to`, where no key up to `c` follows. */
  lemma {:induction false} RangeGap(s: Entries, from: Key, to: Component, c: Component)
    requires Sorted(s) && Below(from, At(to)) && Below(At(to), At(c))
    requires forall x | x in s && AtMost(x.key, At(c)) :: AtMost(x.key, At(to))
    ensures IsExcluded(ExcludeRange(s, from, to), c) <==> IsExcluded(s, c) && !CutOff(s, from, to, c)
  {
    TotalOrder();
    var r, lo := ExcludeRange(s, from, to), StartOf(s, from);
    OpenMembers(s, from, lo);
    RangeMembers(s, from, to, lo);
    var f := if Swallows(s, from, to) then lo else Entry(At(to), false);
    RangeMembers(s, from, to, f);
    forall x | x in r && AtMost(x.key, At(c)) ensures AtMost(x.key, f.key) {
      RangeMembers(s, from, to, x);
    }
    FloorDecides(r, f, c);
    GapBefore(s, from, to, c);
  }

  /** Opening a range leaves the lower bound of a greater key where it was. */
  lemma {:induction false} OpenLowerBound(s: Entries, from: Key, to: Key)
    requires Below(from, to)
    ensures var t, i, m := OpenAt(s, from), LowerBound(s, from), LowerBound(s, to);
      LowerBound(t, to) == m <= i && (m < i ==> t[m] == s[m])
  {
    var t, i, m := OpenAt(s, from), LowerBound(s, from), LowerBound(s, to);
    if i < |s| {
      BelowFacts(s[i].key, from, to);
    }
    assert m <= i;
    assert forall j | 0 <= j < i :: t[j] == s[j];
    BelowFacts(t[i].key, from, to);
    LowerBoundIs(t, to, m);
  }

  /** The same gap in the list before the operation. */
  lemma {:induction false} GapBefore(s: Entries, from: Key, to: Component, c: Component)
    requires Sorted(s) && Below(from, At(to)) && Below(At(to), At(c))
    requires forall x | x in s && AtMost(x.key, At(c)) :: AtMost(x.key, At(to))
    ensures Swallows(s, from, to) ==> IsExcluded(s, c) && !CutOff(s, from, to, c)
    ensures !Swallows(s, from, to) ==> (IsExcluded(s, c) <==> CutOff(s, from, to, c))
  {
    OpenLowerBound(s, from, At(to));
    var m := LowerBound(s, At(to));
    if m < |s| {
      BelowFacts(s[m].key, At(to), At(c));
      BelowFacts(At(c), At(to), At(c));
    }
    assert forall j | 0 <= j < m :: s[j] in s;
    LowerBoundIs(s, At(c), m);
  }

  /** A range always excludes [from, to] and nothing but [from, to] and what was excluded before; it is
      exactly their union if and only if nothing is cut off. */
  lemma {:induction false} RangeIsUnion(s: Entries, from: Key, to: Component)
    requires Sorted(s) && Below(from, At(to))
    ensures var r := ExcludeRange(s, from, to);
      && Sorted(r)
      && (forall c :: InRange(from, to, c) ==> IsExcluded(r, c))
      && (forall c :: IsExcluded(r, c) ==> IsExcluded(s, c) || InRange(from, to, c))
      && ((forall c :: IsExcluded(r, c) <==> IsExcluded(s, c) || InRange(from, to, c)) <==>
          (forall c :: !CutOff(s, from, to, c)))
  {
    RangeMembers(s, from, to, StartOf(s, from));
    var r := ExcludeRange(s, from, to);
    forall c ensures IsExcluded(r, c) <==> (IsExcluded(s, c) && !CutOff(s, from, to, c)) || InRange(from, to, c)
      ensures CutOff(s, from, to, c) ==> IsExcluded(s, c) && !InRange(from, to, c)
    {
      RangeAt(s, from, to, c);
      BelowFacts(At(to), At(c), At(to));
    }
  }

  // ---- What is cut off, as a test on the list ----

  function Zeros(n: nat): seq<Byte> { seq(n, _ => 0) }

  /** The next byte string of the same length, if there is one. */
  function Increment(v: seq<Byte>): (w: seq<Byte>)
    ensures w == [] || |w| == |v|
  {
    if v == [] then []
    else
      var rest := Increment(v[1..]);
      if rest != [] then [v[0]] + rest
      else if v[0] < 255 then [v[0] + 1] + Zeros(|v| - 1)
      else []
  }

  /** The least component above `c` in the canonical order. */
  function Successor(c: Component): Component {
    var w := Increment(c.value);
    Component(c.typ, if w == [] then Zeros(|c.value| + 1) else w)
  }

  lemma {:induction false} ZerosAreLeast(v: seq<Byte>)
    ensures Memcmp(Zeros(|v|), v, |v|) <= 0
  {
    if v != [] {
      assert Zeros(|v|)[1..] == Zeros(|v| - 1);
      ZerosAreLeast(v[1..]);
    }
  }

  lemma {:induction false} IncrementIsNext(v: seq<Byte>, x: seq<Byte>)
    requires |x| == |v|
    ensures Increment(v) != [] ==> Memcmp(v, Increment(v), |v|) < 0
    ensures Memcmp(v, x, |v|) < 0 ==> Increment(v) != [] && Memcmp(Increment(v), x, |v|) <= 0
  {
    if v != [] {
      IncrementIsNext(v[1..], x[1..]);
      ZerosAreLeast(x[1..]);
      var rest, w := Increment(v[1..]), Increment(v);
      assert rest != [] ==> w[1..] == rest;
      assert rest == [] && w != [] ==> w[1..] == Zeros(|v| - 1);
    }
  }

  /** Nothing lies between a component and its successor. */
  lemma {:induction false} SuccessorIsNext(c: Component, d: Component)
    ensures Below(At(c), At(Successor(c)))
    ensures Below(At(c), At(d)) ==> AtMost(At(Successor(c)), At(d))
  {
    var w := Increment(c.value);
    if |d.value| == |c.value| {
      IncrementIsNext(c.value, d.value);
    }
    IncrementIsNext(c.value, c.value);
    CompareFlip(Successor(c), d);
    if w == [] && |d.value| == |c.value| + 1 {
      ZerosAreLeast(d.value);
    }
  }

  /** Both ends of a new range fall into one existing range, and something lies above `to` in it. */
  predicate EndsTooEarly(s: Entries, from: Key, to: Component) {
    var i := LowerBound(s, from);
    && i < |s| && s[i].any && LowerBound(s, At(to)) == i
    && (i == 0 || Below(At(Successor(to)), s[i - 1].key))
  }

  lemma {:induction false} CutOffFound(s: Entries, from: Key, to: Component, c: Component)
    requires Sorted(s) && Below(from, At(to))
    ensures CutOff(s, from, to, c) ==> EndsTooEarly(s, from, to)
    ensures EndsTooEarly(s, from, to) ==> CutOff(s, from, to, Successor(to))
  {
    var i, d := LowerBound(s, from), Successor(to);
    SuccessorIsNext(to, c);
    if i > 0 && i < |s| {
      BelowFacts(At(d), At(c), s[i - 1].key);
      BelowFacts(At(c), s[i - 1].key, At(c));
      BelowFacts(At(d), s[i - 1].key, At(d));
    }
    if EndsTooEarly(s, from, to) {
      BelowFacts(s[i].key, At(to), At(d));
      forall j | 0 <= j < i ensures !AtMost(s[j].key, At(d)) {
        BelowFacts(At(d), s[i - 1].key, s[j].key);
        BelowFacts(At(d), s[j].key, At(d));
      }
      LowerBoundIs(s, At(d), i);
    }
  }

  /** The exact condition to test before the call: a range is united with the set if and only if it does
      not end too early inside the one existing range that holds both its ends. */
  lemma {:induction false} UnionTest(s: Entries, from: Key, to: Component)
    requires Sorted(s) && Below(from, At(to))
    ensures (forall c :: IsExcluded(ExcludeRange(s, from, to), c) <==> IsExcluded(s, c) || InRange(from, to, c)) <==>
            !EndsTooEarly(s, from, to)
  {
    RangeIsUnion(s, from, to);
    CutOffFound(s, from, to, Successor(to));
    forall c ensures CutOff(s, from, to, c) ==> EndsTooEarly(s, from, to) {
      CutOffFound(s, from, to, c);
    }
  }

  lemma {:induction false} AfterMembers(s: Entries, from: Component, x: Entry)
    requires Sorted(s)
    ensures Sorted(ExcludeAfter(s, from))
    ensures var lo := StartOf(s, At(from));
      x in ExcludeAfter(s, from) <==> x == lo || (x in s && Below(x.key, lo.key))
  {
    OpenMembers(s, At(from), x);
    var t, i := OpenAt(s, At(from)), LowerBound(s, At(from));
    OpenSorted(s, At(from));
    assert t[i..] == [t[i]] + t[i + 1..];
  }

  /** `excludeAfter` unites the set with [from, +Inf). */
  lemma {:induction false} AfterIsUnion(s: Entries, from: Component, c: Component)
    requires Sorted(s)
    ensures IsExcluded(ExcludeAfter(s, from), c) <==> IsExcluded(s, c) || AtMost(At(from), At(c))
  {
    TotalOrder();
    var r, lo := ExcludeAfter(s, from), StartOf(s, At(from));
    OpenMembers(s, At(from), lo);
    AfterMembers(s, from, lo);
    if AtMost(lo.key, At(c)) {
      forall x | x in r && AtMost(x.key, At(c)) ensures AtMost(x.key, lo.key) {
        AfterMembers(s, from, x);
      }
      FloorDecides(r, lo, c);
      if !AtMost(At(from), At(c)) {
        forall x | x in s && AtMost(x.key, At(c)) ensures AtMost(x.key, lo.key) {
          LowerBoundSplits(s, At(from), x);
        }
        FloorDecides(s, lo, c);
      }
    } else if exists x :: x in s && AtMost(x.key, At(c)) {
      var f := FindFloor(s, At(c));
      FloorDecides(s, f, c);
      AfterMembers(s, from, f);
      forall x | x in r && AtMost(x.key, At(c)) ensures AtMost(x.key, f.key) {
        AfterMembers(s, from, x);
      }
      FloorDecides(r, f, c);
    } else {
      NoFloor(s, c);
      forall x | x in r ensures Below(At(c), x.key) {
        AfterMembers(s, from, x);
      }
      NoFloor(r, c);
    }
  }

  lemma {:induction false} OneMembers(s: Entries, c: Component, x: Entry)
    requires Sorted(s)
    ensures Sorted(ExcludeOne(s, c))
    ensures x in ExcludeOne(s, c) <==> x in s || (x == Entry(At(c), false) && !IsExcluded(s, c))
  {
    if !IsExcluded(s, c) {
      var i := LowerBound(s, At(c));
      assert s == s[..i] + s[i..];
      InsertSorted(s, Entry(At(c), false));
    }
  }

  /** `excludeOne` adds one component. */
  lemma {:induction false} OneIsUnion(s: Entries, c: Component, d: Component)
    requires Sorted(s)
    ensures IsExcluded(ExcludeOne(s, c), d) <==> IsExcluded(s, d) || d == c
  {
    TotalOrder();
    var r, e := ExcludeOne(s, c), Entry(At(c), false);
    OneMembers(s, c, e);
    if !IsExcluded(s, c) {
      forall x ensures x in r <==> x in s || x == e { OneMembers(s, c, x); }
      if exists x :: x in s && AtMost(x.key, At(d)) {
        var f := FindFloor(s, At(d));
        FloorDecides(s, f, d);
        if AtMost(At(c), At(d)) && AtMost(f.key, At(c)) {
          FloorDecides(r, e, d);
          FloorDecides(s, f, c);
        } else {
          FloorDecides(r, f, d);
        }
      } else {
        NoFloor(s, d);
        if AtMost(At(c), At(d)) {
          FloorDecides(r, e, d);
        } else {
          NoFloor(r, d);
        }
      }
    }
  }
}
