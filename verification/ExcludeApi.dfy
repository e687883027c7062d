/** Sequences of calls on an Exclude selector, its enumeration as ranges, and its wire form. */
module ExcludeApi {
  import opened Components
  import opened Exclude

  // ---- Sequences of calls ----

  datatype Call = One(comp: Component) | Range(from: Key, to: Component) | After(comp: Component)

  /** A range whose ends are not in order is refused and changes nothing. */
  predicate Accepted(call: Call) { call.Range? ==> Below(call.from, At(call.to)) }

  function Perform(s: Entries, call: Call): Entries
    requires Sorted(s)
  {
    match call
    case One(c) => ExcludeOne(s, c)
    case Range(from, to) => if Accepted(call) then ExcludeRange(s, from, to) else s
    case After(c) => ExcludeAfter(s, c)
  }

  predicate Denotes(call: Call, c: Component) {
    match call
    case One(d) => c == d
    case Range(from, to) => Accepted(call) && InRange(from, to, c)
    case After(d) => AtMost(At(d), At(c))
  }

  ghost predicate CutsNothing(s: Entries, call: Call) {
    call.Range? && Accepted(call) ==> forall c :: !CutOff(s, call.from, call.to, c)
  }

  lemma {:induction false} PerformSorted(s: Entries, call: Call)
    requires Sorted(s)
    ensures Sorted(Perform(s, call))
  {
    match call
    case One(c) => OneMembers(s, c, Entry(NegInf, true));
    case Range(from, to) => if Accepted(call) { RangeIsUnion(s, from, to); }
    case After(c) => AfterMembers(s, c, Entry(NegInf, true));
  }

  /** One call adds what it denotes and keeps the rest, exactly when it cuts nothing off. */
  lemma {:induction false} PerformIsUnion(s: Entries, call: Call)
    requires Sorted(s)
    ensures (forall c :: IsExcluded(Perform(s, call), c) <==> IsExcluded(s, c) || Denotes(call, c)) <==>
            CutsNothing(s, call)
  {
    match call
    case One(d) => forall c { OneIsUnion(s, d, c); }
    case Range(from, to) => if Accepted(call) { RangeIsUnion(s, from, to); }
    case After(d) => forall c { AfterIsUnion(s, d, c); }
  }

  function PerformAll(calls: seq<Call>): (s: Entries)
    ensures Sorted(s)
  {
    if calls == [] then []
    else
      var s := PerformAll(calls[..|calls| - 1]);
      PerformSorted(s, calls[|calls| - 1]);
      Perform(s, calls[|calls| - 1])
  }

  ghost predicate DenotedBy(calls: seq<Call>, c: Component) { exists call :: call in calls && Denotes(call, c) }

  lemma {:induction false} DenotedNext(pre: seq<Call>, call: Call, c: Component)
    ensures DenotedBy(pre + [call], c) <==> DenotedBy(pre, c) || Denotes(call, c)
  {
    assert call in pre + [call];
  }

  /** Each call cut nothing off when it was made. */
  ghost predicate AllCutNothing(calls: seq<Call>) {
    calls == [] ||
    (AllCutNothing(calls[..|calls| - 1]) && CutsNothing(PerformAll(calls[..|calls| - 1]), calls[|calls| - 1]))
  }

  ghost predicate ExcludesUnion(calls: seq<Call>) {
    forall c :: IsExcluded(PerformAll(calls), c) <==> DenotedBy(calls, c)
  }

  lemma {:induction false} PerformNext(pre: seq<Call>, call: Call)
    ensures PerformAll(pre + [call]) == Perform(PerformAll(pre), call)
  {
    assert (pre + [call])[..|pre|] == pre;
  }

  lemma {:induction false} UnionNext(pre: seq<Call>, call: Call)
    requires CutsNothing(PerformAll(pre), call) && ExcludesUnion(pre)
    ensures ExcludesUnion(pre + [call])
  {
    PerformNext(pre, call);
    PerformIsUnion(PerformAll(pre), call);
    forall c ensures IsExcluded(PerformAll(pre + [call]), c) <==> DenotedBy(pre + [call], c) {
      DenotedNext(pre, call, c);
    }
  }

  /** After any calls that cut nothing off, the excluded components are exactly those some call denotes. */
  lemma {:induction false} CallsAreUnion(calls: seq<Call>)
    requires AllCutNothing(calls)
    ensures ExcludesUnion(calls)
  {
    if calls != [] {
      var pre, last := calls[..|calls| - 1], calls[|calls| - 1];
      CallsAreUnion(pre);
      UnionNext(pre, last);
      assert calls == pre + [last];
    }
  }

  /** Whatever the calls, nothing is excluded that no call denotes. */
  lemma {:induction false} CallsAreSound(calls: seq<Call>, c: Component)
    requires IsExcluded(PerformAll(calls), c)
    ensures DenotedBy(calls, c)
  {
    if calls != [] {
      var k := |calls| - 1;
      var s, call := PerformAll(calls[..k]), calls[k];
      assert calls == calls[..k] + [call];
      match call {
        case One(d) => OneIsUnion(s, d, c);
        case Range(from, to) => if Accepted(call) { RangeIsUnion(s, from, to); }
        case After(d) => AfterIsUnion(s, d, c);
      }
      if !Denotes(call, c) {
        CallsAreSound(calls[..k], c);
      }
    }
  }

  // ---- Negative infinity always carries ANY ----

  predicate NegInfOk(s: Entries) { forall e | e in s :: e.key == NegInf ==> e.any }

  lemma {:induction false} PerformNegInf(s: Entries, call: Call)
    requires Sorted(s) && NegInfOk(s)
    ensures NegInfOk(Perform(s, call))
  {
    forall e | e in Perform(s, call) ensures e.key == NegInf ==> e.any {
      match call
      case One(c) => OneMembers(s, c, e);
      case Range(from, to) =>
        if Accepted(call) {
          RangeMembers(s, from, to, e);
          OpenMembers(s, from, e);
        }
      case After(c) =>
        AfterMembers(s, c, e);
        OpenMembers(s, At(c), e);
    }
  }

  // ---- No two ANY entries in a row ----

  predicate NoAdjacentAny(s: Entries) { forall i | 0 < i < |s| :: !(s[i].any && s[i - 1].any) }

  /** `from` is the upper end of an existing range. */
  predicate StartsAtUpperEnd(s: Entries, from: Key) {
    var i := LowerBound(s, from);
    i < |s| && s[i].key == from && !s[i].any && i + 1 < |s| && s[i + 1].any
  }

  lemma {:induction false} OpenNormal(s: Entries, from: Key)
    requires Sorted(s) && NoAdjacentAny(s)
    ensures var t, i := OpenAt(s, from), LowerBound(s, from);
      && i < |t| && t[i].any && t[..i] == s[..i]
      && (NoAdjacentAny(t[i..]) <==> !StartsAtUpperEnd(s, from))
  {
    var t, i := OpenAt(s, from), LowerBound(s, from);
    var u := t[i..];
    forall k | 1 < k < |u| ensures !(u[k].any && u[k - 1].any) {
      assert u[k] == t[i + k] && u[k - 1] == t[i + k - 1];
    }
    assert |u| > 1 ==> u[1] == t[i + 1] && u[0] == t[i];
  }

  lemma {:induction false} JoinNormal(a: Entries, b: Entries)
    requires NoAdjacentAny(a) && (a != [] && b != [] ==> !(b[0].any && a[|a| - 1].any))
    ensures NoAdjacentAny(a + b) <==> NoAdjacentAny(b)
  {
    var r := a + b;
    if NoAdjacentAny(b) {
      forall i | 0 < i < |r| ensures !(r[i].any && r[i - 1].any) {
        if i > |a| { assert r[i] == b[i - |a|] && r[i - 1] == b[i - |a| - 1]; }
      }
    } else {
      var i :| 0 < i < |b| && b[i].any && b[i - 1].any;
      assert r[|a| + i].any && r[|a| + i - 1].any;
    }
  }

  /** A stretch of the list, and the entry right below it. */
  lemma {:induction false} PrefixNormal(s: Entries, t: Entries, i: nat, j: nat)
    requires NoAdjacentAny(s) && j <= i <= |s| && i <= |t| && t[..i] == s[..i]
    ensures NoAdjacentAny(t[..j]) && (0 < j < i ==> !(t[j].any && t[j - 1].any))
  {
    forall k | 0 <= k < i ensures t[k] == s[k] {
      assert t[..i][k] == s[..i][k];
    }
  }

  /** What is closed above a range fits any list below it. */
  lemma {:induction false} CloseNormal(t: Entries, i: nat, to: Key)
    requires i < |t| && LowerBound(t, to) <= i && t[i].key != to && t[i].any
    requires var j := LowerBound(t, to); NoAdjacentAny(t[..j]) && (0 < j < i ==> !(t[j].any && t[j - 1].any))
    ensures NoAdjacentAny(CloseAt(t, i, to)) <==> NoAdjacentAny(t[i..])
  {
    var j := LowerBound(t, to);
    if j < i && t[j].any {
      JoinNormal(t[..j], t[i..]);
    } else if t[j].key == to {
      assert t[..j + 1] == t[..j] + [t[j]];
      JoinNormal(t[..j], [t[j]]);
      JoinNormal(t[..j + 1], t[i..]);
    } else {
      JoinNormal(t[..j], [Entry(to, false)]);
      JoinNormal(t[..j] + [Entry(to, false)], t[i..]);
    }
  }

  lemma {:induction false} RangeNormal(s: Entries, from: Key, to: Component)
    requires Sorted(s) && NoAdjacentAny(s) && Below(from, At(to))
    ensures NoAdjacentAny(ExcludeRange(s, from, to)) <==> !StartsAtUpperEnd(s, from)
  {
    OpenNormal(s, from);
    OpenPosition(s, from, At(to));
    var t, i := OpenAt(s, from), LowerBound(s, from);
    PrefixNormal(s, t, i, LowerBound(t, At(to)));
    BelowFacts(from, At(to), from);
    CloseNormal(t, i, At(to));
  }

  /** Each call keeps the form exactly when it does not start a range at the upper end of another. */
  lemma {:induction false} PerformNormal(s: Entries, call: Call)
    requires Sorted(s) && NoAdjacentAny(s)
    ensures NoAdjacentAny(Perform(s, call)) <==>
      match call
      case One(_) => true
      case Range(from, _) => Accepted(call) ==> !StartsAtUpperEnd(s, from)
      case After(c) => !StartsAtUpperEnd(s, At(c))
  {
    match call
    case One(c) =>
      if !IsExcluded(s, c) {
        var i := LowerBound(s, At(c));
        JoinNormal(s[..i] + [Entry(At(c), false)], s[i..]);
      }
    case Range(from, to) => if Accepted(call) { RangeNormal(s, from, to); }
    case After(c) => OpenNormal(s, At(c));
  }

  // ---- Enumeration ----

  datatype Upper = PosInf | UpTo(comp: Component)

  /** An excluded component or range, both ends included. */
  datatype Interval = Interval(from: Key, to: Upper)

  predicate Covers(r: Interval, c: Component) {
    AtMost(r.from, At(c)) && (r.to.UpTo? ==> AtMost(At(c), At(r.to.comp)))
  }

  ghost predicate CoveredBy(rs: seq<Interval>, c: Component) { exists r :: r in rs && Covers(r, c) }

  /** Each range ends below the start of every later one. */
  predicate Ascending(rs: seq<Interval>) {
    forall i, j | 0 <= i < j < |rs| :: rs[i].to.UpTo? && Below(At(rs[i].to.comp), rs[j].from)
  }

  lemma {:induction false} IsExcludedCons(s: Entries, p: nat, c: Component)
    requires p < |s|
    ensures IsExcluded(s[p..], c) <==>
            if AtMost(s[p].key, At(c)) then s[p].any || s[p].key == At(c) else IsExcluded(s[p + 1..], c)
  {
    assert s[p..][1..] == s[p + 1..];
  }

  /** The range that `const_iterator::update` builds at position `p`. */
  function IntervalAt(s: Entries, p: nat): Interval
    requires p < |s| && (s[p].key == NegInf ==> s[p].any) && forall k | 0 <= k < p :: s[k].key != NegInf
  {
    if s[p].any then Interval(s[p].key, if p == 0 then PosInf else UpTo(s[p - 1].key.comp))
    else Interval(s[p].key, UpTo(s[p].key.comp))
  }

  /** Where `const_iterator::operator++` goes from position `p`. */
  function NextPosition(s: Entries, p: nat): int
    requires p < |s|
  {
    if s[p].any && p > 0 then p - 2 else p - 1
  }

  /** A position where the iterator stops: nothing below it reaches up to it. */
  predicate IsStop(s: Entries, p: int) { -1 <= p < |s| && (0 <= p && p + 1 < |s| ==> !s[p + 1].any) }

  lemma {:induction false} TopNotAny(s: Entries, q: nat, c: Component)
    requires q < |s| && !s[q].any && IsExcluded(s[q..], c)
    ensures AtMost(At(c), s[q].key)
  {
    IsExcludedCons(s, q, c);
    BelowFacts(At(c), s[q].key, At(c));
  }

  /** What is excluded by the entries below a stop lies below the key at the stop. */
  lemma {:induction false} RestIsBelow(s: Entries, p: nat, c: Component)
    requires p < |s| && Sorted(s) && IsStop(s, p) && IsExcluded(s[p + 1..], c)
    ensures Below(At(c), s[p].key)
  {
    TopNotAny(s, p + 1, c);
    BelowFacts(At(c), s[p + 1].key, s[p].key);
  }

  lemma {:induction false} EntryCovers(s: Entries, p: nat, c: Component)
    requires p < |s| && Sorted(s) && IsStop(s, p)
    ensures IsExcluded(s[p..], c) <==>
            IsExcluded(s[p + 1..], c) || (AtMost(s[p].key, At(c)) && (s[p].any || s[p].key == At(c)))
  {
    IsExcludedCons(s, p, c);
    if IsExcluded(s[p + 1..], c) {
      RestIsBelow(s, p, c);
      BelowFacts(At(c), s[p].key, At(c));
    }
  }

  lemma {:induction false} PairCovers(s: Entries, p: nat, c: Component)
    requires 0 < p < |s| && Sorted(s) && IsStop(s, p) && s[p].any && !s[p - 1].any
    ensures IsExcluded(s[p - 1..], c) <==>
            IsExcluded(s[p + 1..], c) || (AtMost(s[p].key, At(c)) && AtMost(At(c), s[p - 1].key))
  {
    EntryCovers(s, p, c);
    IsExcludedCons(s, p - 1, c);
    BelowFacts(At(c), s[p - 1].key, At(c));
    BelowFacts(s[p].key, s[p - 1].key, At(c));
    BelowFacts(At(c), s[p].key, s[p - 1].key);
    if IsExcluded(s[p + 1..], c) {
      RestIsBelow(s, p, c);
    }
  }

  lemma {:induction false} IntervalCovers(s: Entries, p: nat, c: Component)
    requires p < |s| && Sorted(s) && NegInfOk(s) && NoAdjacentAny(s) && IsStop(s, p)
    requires forall k | 0 <= k < p :: s[k].key != NegInf
    requires s[p].key == NegInf ==> s[p].any
    ensures IsStop(s, NextPosition(s, p))
    ensures IsExcluded(s[NextPosition(s, p) + 1..], c) <==> IsExcluded(s[p + 1..], c) || Covers(IntervalAt(s, p), c)
  {
    BelowFacts(At(c), s[p].key, At(c));
    if s[p].any && p > 0 {
      PairCovers(s, p, c);
    } else {
      EntryCovers(s, p, c);
    }
  }

  lemma {:induction false} OnlyLastIsNegInf(s: Entries, p: nat)
    requires Sorted(s) && p < |s|
    ensures forall k | 0 <= k < p :: s[k].key != NegInf
  {
    forall k | 0 <= k < p ensures s[k].key != NegInf {
      assert Below(s[p].key, s[k].key);
    }
  }

  /** The ranges collected before the iterator stops at `p`. */
  ghost predicate Enumerated(s: Entries, p: int, rs: seq<Interval>) {
    && IsStop(s, p) && Ascending(rs)
    && (p >= 0 ==> forall r | r in rs :: r.to.UpTo? && Below(At(r.to.comp), s[p].key))
    && (forall c :: CoveredBy(rs, c) <==> IsExcluded(s[p + 1..], c))
  }

  lemma {:induction false} EnumeratedNext(s: Entries, p: nat, rs: seq<Interval>)
    requires Sorted(s) && NegInfOk(s) && NoAdjacentAny(s) && p < |s| && Enumerated(s, p, rs)
    requires (s[p].key == NegInf ==> s[p].any) && forall k | 0 <= k < p :: s[k].key != NegInf
    ensures Enumerated(s, NextPosition(s, p), rs + [IntervalAt(s, p)])
  {
    var r, q := IntervalAt(s, p), NextPosition(s, p);
    IntervalCovers(s, p, Component(0, []));
    EndsBelowNext(s, p);
    CoversNext(s, p, rs);
    AscendingAppend(rs, r);
  }

  lemma {:induction false} CoversNext(s: Entries, p: nat, rs: seq<Interval>)
    requires Sorted(s) && NegInfOk(s) && NoAdjacentAny(s) && p < |s| && Enumerated(s, p, rs)
    requires (s[p].key == NegInf ==> s[p].any) && forall k | 0 <= k < p :: s[k].key != NegInf
    ensures NextPosition(s, p) >= -1
    ensures forall c :: CoveredBy(rs + [IntervalAt(s, p)], c) <==> IsExcluded(s[NextPosition(s, p) + 1..], c)
  {
    var r, q := IntervalAt(s, p), NextPosition(s, p);
    CoveredByOneMore(rs, r);
    forall c ensures CoveredBy(rs + [r], c) <==> IsExcluded(s[q + 1..], c) {
      IntervalCovers(s, p, c);
    }
  }

  lemma {:induction false} AscendingAppend(rs: seq<Interval>, r: Interval)
    requires Ascending(rs) && forall x | x in rs :: x.to.UpTo? && Below(At(x.to.comp), r.from)
    ensures Ascending(rs + [r])
  {
    forall i, j | 0 <= i < j < |rs + [r]|
      ensures (rs + [r])[i].to.UpTo? && Below(At((rs + [r])[i].to.comp), (rs + [r])[j].from)
    {
      assert rs[i] in rs;
    }
  }

  /** The range starts at the key at `p` and ends there, or, if that key carries ANY, at the next greater
      key or nowhere. */
  predicate IsRangeAt(s: Entries, p: nat, r: Interval) {
    && p < |s| && r.from == s[p].key
    && (if !s[p].any then r.to.UpTo? && s[p].key == At(r.to.comp)
        else if p == 0 then r.to.PosInf?
        else r.to.UpTo? && s[p - 1].key == At(r.to.comp))
  }

  ghost predicate AreRanges(s: Entries, rs: seq<Interval>) { forall r | r in rs :: exists p: nat :: IsRangeAt(s, p, r) }

  lemma {:induction false} OneMoreRange(s: Entries, rs: seq<Interval>, p: nat)
    requires AreRanges(s, rs) && p < |s| && (s[p].key == NegInf ==> s[p].any)
    requires forall k | 0 <= k < p :: s[k].key != NegInf
    ensures AreRanges(s, rs + [IntervalAt(s, p)])
  {
    assert IsRangeAt(s, p, IntervalAt(s, p));
  }

  /** The iterator yields ascending, pairwise disjoint ranges whose union is the excluded set; each is one
      key or one key with ANY up to the next. */
  method Enumerate(s: Entries) returns (rs: seq<Interval>)
    requires Sorted(s) && NegInfOk(s) && NoAdjacentAny(s)
    ensures Ascending(rs)
    ensures forall c :: CoveredBy(rs, c) <==> IsExcluded(s, c)
    ensures AreRanges(s, rs)
  {
    rs := [];
    var p := |s| - 1;
    assert s[|s|..] == [];
    while p >= 0
      invariant Enumerated(s, p, rs) && AreRanges(s, rs)
      decreases p
    {
      assert s[p] in s;
      OnlyLastIsNegInf(s, p);
      EnumeratedNext(s, p, rs);
      OneMoreRange(s, rs, p);
      rs := rs + [IntervalAt(s, p)];
      p := NextPosition(s, p);
    }
    assert s[0..] == s;
  }

  /** The range at `p` ends below the next stop, and so does everything that ended below `p`. */
  lemma {:induction false} EndsBelowNext(s: Entries, p: nat)
    requires p < |s| && Sorted(s) && (s[p].key == NegInf ==> s[p].any) && forall k | 0 <= k < p :: s[k].key != NegInf
    ensures var q := NextPosition(s, p);
      q >= 0 ==> IntervalAt(s, p).to.UpTo? && Below(At(IntervalAt(s, p).to.comp), s[q].key) &&
                 forall k: Key :: Below(k, s[p].key) ==> Below(k, s[q].key)
  {
    var q := NextPosition(s, p);
    if q >= 0 {
      forall k: Key ensures Below(k, s[p].key) ==> Below(k, s[q].key) {
        BelowFacts(k, s[p].key, s[q].key);
      }
    }
  }

  lemma {:induction false} CoveredByOneMore(rs: seq<Interval>, r: Interval)
    ensures forall c :: CoveredBy(rs + [r], c) <==> CoveredBy(rs, c) || Covers(r, c)
  {
    forall c ensures CoveredBy(rs + [r], c) <==> CoveredBy(rs, c) || Covers(r, c) {
      if CoveredBy(rs, c) {
        var x :| x in rs && Covers(x, c);
        assert x in rs + [r];
      }
      if Covers(r, c) {
        assert r in rs + [r];
      }
    }
  }

  // ---- Wire form ----

  /** The elements inside an Exclude TLV. */
  datatype Element = AnyElement | ComponentElement(comp: Component)

  datatype Result<T> = Ok(value: T) | Error

  predicate Excludable(c: Component) { IsGeneric(c) || IsImplicitDigest(c) }

  function ElementsOf(e: Entry): seq<Element> {
    (if e.key == NegInf then [] else [ComponentElement(e.key.comp)]) + (if e.any then [AnyElement] else [])
  }

  /** The elements in ascending order of the keys. */
  function Elements(s: Entries): seq<Element> {
    if s == [] then [] else ElementsOf(s[|s| - 1]) + Elements(s[..|s| - 1])
  }

  /** `wireEncode`: prepends while walking the list in descending order; an empty Exclude is refused. */
  method WireEncode(s: Entries) returns (r: Result<seq<Element>>)
    ensures r == if s == [] then Error else Ok(Elements(s))
  {
    if s == [] {
      return Error;
    }
    var out := [];
    for i := 0 to |s|
      invariant out == Elements(s[..i])
    {
      assert s[..i + 1][..i] == s[..i];
      if s[i].any {
        out := [AnyElement] + out;
      }
      if s[i].key != NegInf {
        out := [ComponentElement(s[i].key.comp)] + out;
      }
    }
    assert s[..|s|] == s;
    return Ok(out);
  }

  predicate AnyBehind(es: seq<Element>, i: nat) { i + 1 < |es| && es[i + 1].AnyElement? }

  predicate ComponentsAscend(es: seq<Element>) {
    forall i, j | 0 <= i < j < |es| && es[i].ComponentElement? && es[j].ComponentElement? ::
      Below(At(es[i].comp), At(es[j].comp))
  }

  predicate FlagsFollow(s: Entries, es: seq<Element>) {
    forall i | 0 <= i < |es| && es[i].ComponentElement? :: Entry(At(es[i].comp), AnyBehind(es, i)) in s
  }

  predicate AnyPlaced(s: Entries, es: seq<Element>) {
    forall i | 0 <= i < |es| && es[i].AnyElement? ::
      if i == 0 then Entry(NegInf, true) in s else es[i - 1].ComponentElement?
  }

  predicate WrittenOf(e: Entry, es: seq<Element>) {
    if e.key == NegInf then e.any ==> es != [] && es[0].AnyElement? else ComponentElement(e.key.comp) in es
  }

  /** The elements are the keys in ascending order, each followed by ANY exactly if it carries it; negative
      infinity is an ANY in front. */
  predicate IsWrittenAs(s: Entries, es: seq<Element>) {
    ComponentsAscend(es) && FlagsFollow(s, es) && AnyPlaced(s, es) && forall e | e in s :: WrittenOf(e, es)
  }

  lemma {:induction false} WrittenInOrder(s: Entries)
    requires Sorted(s)
    ensures IsWrittenAs(s, Elements(s))
  {
    if s != [] {
      var e, init := s[|s| - 1], s[..|s| - 1];
      WrittenInOrder(init);
      KeysAbove(s);
      InitAndLast(s);
      OneMoreWritten(init, e, Elements(init));
    }
  }

  lemma {:induction false} InitAndLast(s: Entries)
    requires s != []
    ensures s == s[..|s| - 1] + [s[|s| - 1]]
  {
  }

  predicate AllAbove(s: Entries, k: Key) { forall x | x in s :: x.key != NegInf && Below(k, x.key) }

  lemma {:induction false} KeysAbove(s: Entries)
    requires Sorted(s) && s != []
    ensures AllAbove(s[..|s| - 1], s[|s| - 1].key)
    ensures var es := Elements(s[..|s| - 1]); es != [] ==> es[0].ComponentElement?
  {
    OnlyLastIsNegInf(s, |s| - 1);
    FirstIsComponent(s[..|s| - 1]);
  }

  lemma {:induction false} OneMoreWritten(s: Entries, e: Entry, es: seq<Element>)
    requires IsWrittenAs(s, es) && AllAbove(s, e.key) && (es != [] ==> es[0].ComponentElement?)
    ensures IsWrittenAs(s + [e], ElementsOf(e) + es)
  {
    AscendsInFront(s, e, es);
    FlagsInFront(s, e, es);
    AnyInFront(s, e, es);
    AllInFront(s, e, es);
  }

  // A smaller key in front, part by part.

  lemma {:induction false} AscendsInFront(s: Entries, e: Entry, es: seq<Element>)
    requires ComponentsAscend(es) && FlagsFollow(s, es) && forall x | x in s :: Below(e.key, x.key)
    ensures ComponentsAscend(ElementsOf(e) + es)
  {
    var all, d := ElementsOf(e) + es, |ElementsOf(e)|;
    forall i, j | 0 <= i < j < |all| && all[i].ComponentElement? && all[j].ComponentElement?
      ensures Below(At(all[i].comp), At(all[j].comp))
    {
      assert all[j] == es[j - d];
      if i < d {
        assert Entry(At(es[j - d].comp), AnyBehind(es, j - d)) in s;
      } else {
        assert all[i] == es[i - d];
      }
    }
  }

  lemma {:induction false} FlagsInFront(s: Entries, e: Entry, es: seq<Element>)
    requires FlagsFollow(s, es) && (es != [] ==> es[0].ComponentElement?)
    ensures FlagsFollow(s + [e], ElementsOf(e) + es)
  {
    var all, d := ElementsOf(e) + es, |ElementsOf(e)|;
    forall i | 0 <= i < |all| && all[i].ComponentElement? ensures Entry(At(all[i].comp), AnyBehind(all, i)) in s + [e] {
      if i >= d {
        assert all[i] == es[i - d] && AnyBehind(all, i) == AnyBehind(es, i - d);
      } else {
        assert Entry(At(all[i].comp), AnyBehind(all, i)) == e;
      }
    }
  }

  lemma {:induction false} AnyInFront(s: Entries, e: Entry, es: seq<Element>)
    requires AnyPlaced(s, es) && (es != [] ==> es[0].ComponentElement?)
    ensures AnyPlaced(s + [e], ElementsOf(e) + es)
  {
    var all, d := ElementsOf(e) + es, |ElementsOf(e)|;
    forall i | 0 <= i < |all| && all[i].AnyElement?
      ensures if i == 0 then Entry(NegInf, true) in s + [e] else all[i - 1].ComponentElement?
    {
      if i >= d {
        assert all[i] == es[i - d];
      }
    }
  }

  lemma {:induction false} AllInFront(s: Entries, e: Entry, es: seq<Element>)
    requires (forall x | x in s :: WrittenOf(x, es)) && forall x | x in s :: x.key != NegInf
    ensures forall x | x in s + [e] :: WrittenOf(x, ElementsOf(e) + es)
  {
    var all := ElementsOf(e) + es;
    forall x | x in s + [e] ensures WrittenOf(x, all) {
      if x in s {
        assert ComponentElement(x.key.comp) in es;
      } else {
        assert all != [] || !e.any;
        assert e.key != NegInf ==> all[0] == ComponentElement(e.key.comp);
      }
    }
  }

  /** `appendEntry`: a key already present is left alone. */
  function Append(s: Entries, e: Entry): Entries {
    var i := LowerBound(s, e.key);
    if i < |s| && s[i].key == e.key then s else Insert(s, i, e)
  }

  function DecodeComponents(s: Entries, es: seq<Element>): Result<Entries>
    decreases |es|
  {
    if es == [] then Ok(s)
    else if es[0].AnyElement? || !Excludable(es[0].comp) then Error
    else
      var key := At(es[0].comp);
      if |es| > 1 && es[1].AnyElement? then DecodeComponents(Append(s, Entry(key, true)), es[2..])
      else DecodeComponents(Append(s, Entry(key, false)), es[1..])
  }

  function WireDecode(es: seq<Element>): Result<Entries> {
    if es == [] then Error
    else if es[0].AnyElement? then DecodeComponents([Entry(NegInf, true)], es[1..])
    else DecodeComponents([], es)
  }

  /** Every component is generic or an implicit digest, and no ANY follows an ANY. */
  predicate WellFormed(es: seq<Element>) {
    && (forall i | 0 <= i < |es| && es[i].ComponentElement? ::
          es[i].comp.typ == 8 || (es[i].comp.typ == 1 && |es[i].comp.value| == 32))
    && forall i | 0 < i < |es| && es[i].AnyElement? :: es[i - 1].ComponentElement?
  }

  lemma {:induction false} AcceptsComponents(s: Entries, es: seq<Element>)
    ensures DecodeComponents(s, es).Ok? <==> (es == [] || es[0].ComponentElement?) && WellFormed(es)
    decreases |es|
  {
    if es != [] && es[0].ComponentElement? && Excludable(es[0].comp) {
      var key := At(es[0].comp);
      if |es| > 1 && es[1].AnyElement? {
        AcceptsComponents(Append(s, Entry(key, true)), es[2..]);
        TailWellFormed(es, 2);
      } else {
        AcceptsComponents(Append(s, Entry(key, false)), es[1..]);
        TailWellFormed(es, 1);
      }
    }
  }

  lemma {:induction false} TailWellFormed(es: seq<Element>, k: nat)
    requires 1 <= k <= |es| && k <= 2 && es[0].ComponentElement? && Excludable(es[0].comp)
    requires if k == 2 then es[1].AnyElement? else |es| > 1 ==> es[1].ComponentElement?
    ensures WellFormed(es) <==> WellFormed(es[k..]) && (|es| > k ==> es[k].ComponentElement?)
  {
    var t := es[k..];
    assert forall i | 0 <= i < |t| :: t[i] == es[i + k];
    assert forall i | k <= i < |es| :: es[i] == t[i - k];
  }

  /** Decoding accepts exactly the lists of that form that are not empty. */
  lemma {:induction false} DecodesExactly(es: seq<Element>)
    ensures WireDecode(es).Ok? <==> es != [] && WellFormed(es)
  {
    if es != [] && es[0].AnyElement? {
      AcceptsComponents([Entry(NegInf, true)], es[1..]);
      var t := es[1..];
      assert forall i | 0 <= i < |t| :: t[i] == es[i + 1];
      assert forall i | 1 <= i < |es| :: es[i] == t[i - 1];
    } else {
      AcceptsComponents([], es);
    }
  }

  // ---- What an accepted list means ----

  predicate HasKey(s: Entries, k: Key) { exists e :: e in s && e.key == k }

  lemma {:induction false} AppendMeans(s: Entries, e: Entry)
    requires Sorted(s)
    ensures Sorted(Append(s, e))
    ensures forall x :: x in Append(s, e) <==> x in s || (x == e && !HasKey(s, e.key))
  {
    var i := LowerBound(s, e.key);
    if i < |s| && s[i].key == e.key {
      assert s[i] in s;
    } else {
      InsertSorted(s, e);
      forall x | x in s ensures x.key != e.key {
        NotAmong(s, e.key, x);
      }
      forall x ensures x in Append(s, e) <==> x in s || x == e {
        assert s == s[..i] + s[i..];
      }
    }
  }

  /** The key's first mention in the list is at `i`, and the entry carries ANY exactly if it does there. */
  predicate FirstMention(es: seq<Element>, e: Entry, i: nat) {
    && i < |es| && es[i].ComponentElement? && e.key == At(es[i].comp) && e.any == AnyBehind(es, i)
    && forall j | 0 <= j < i :: es[j] != es[i]
  }

  ghost predicate Mentioned(es: seq<Element>, e: Entry) { exists i: nat :: FirstMention(es, e, i) }

  lemma {:induction false} MentionNext(es: seq<Element>, k: nat, e: Entry)
    requires 1 <= k <= |es| && es[0].ComponentElement? && k == (if |es| > 1 && es[1].AnyElement? then 2 else 1)
    ensures Mentioned(es, e) <==>
            if e.key == At(es[0].comp) then e == Entry(At(es[0].comp), k == 2) else Mentioned(es[k..], e)
  {
    var t := es[k..];
    assert forall i | 0 <= i < |t| :: t[i] == es[i + k] && AnyBehind(t, i) == AnyBehind(es, i + k);
    if e.key == At(es[0].comp) {
      if e.any == (k == 2) {
        assert FirstMention(es, e, 0);
      }
      if i: nat :| FirstMention(es, e, i) {
        assert i > 0 ==> es[0] == es[i];
      }
    } else {
      if i: nat :| FirstMention(es, e, i) {
        assert i >= k && es[i] == t[i - k];
        assert forall j | 0 <= j < i - k :: t[j] == es[j + k];
        assert FirstMention(t, e, i - k);
      }
      if i: nat :| FirstMention(t, e, i) {
        assert forall j | k <= j < i + k :: es[j] == t[j - k];
        assert FirstMention(es, e, i + k);
      }
    }
  }

  lemma {:induction false} DecodedMeans(s: Entries, es: seq<Element>)
    requires Sorted(s) && DecodeComponents(s, es).Ok?
    ensures var r := DecodeComponents(s, es).value;
      Sorted(r) && forall e :: e in r <==> e in s || (Mentioned(es, e) && !HasKey(s, e.key))
    decreases |es|
  {
    if es == [] {
      assert forall e :: !Mentioned(es, e);
    } else {
      var k := if |es| > 1 && es[1].AnyElement? then 2 else 1;
      var x := Entry(At(es[0].comp), k == 2);
      var r := DecodeComponents(s, es).value;
      AppendMeans(s, x);
      DecodedMeans(Append(s, x), es[k..]);
      forall e ensures e in r <==> e in s || (Mentioned(es, e) && !HasKey(s, e.key)) {
        MentionNext(es, k, e);
        KeyNext(s, x, e.key);
      }
    }
  }

  lemma {:induction false} KeyNext(s: Entries, x: Entry, k: Key)
    requires Sorted(s)
    ensures HasKey(Append(s, x), k) <==> HasKey(s, k) || x.key == k
  {
    AppendMeans(s, x);
    if HasKey(s, k) {
      var e :| e in s && e.key == k;
      assert e in Append(s, x);
    }
    if x.key == k && !HasKey(s, k) {
      assert x in Append(s, x);
    }
  }

  /** A decoded Exclude is sorted and holds each mentioned component once, as its first mention says, and
      negative infinity with ANY exactly if the list starts with ANY. */
  lemma {:induction false} DecodesToMentions(es: seq<Element>)
    requires WireDecode(es).Ok?
    ensures var s := WireDecode(es).value;
      && Sorted(s)
      && forall e :: e in s <==> if e.key == NegInf then e.any && es[0].AnyElement? else Mentioned(es, e)
  {
    if es[0].AnyElement? {
      var t := es[1..];
      DecodedMeans([Entry(NegInf, true)], t);
      assert forall i | 0 <= i < |t| :: t[i] == es[i + 1] && AnyBehind(t, i) == AnyBehind(es, i + 1);
      forall e ensures Mentioned(es, e) <==> Mentioned(t, e) {
        MentionShift(es, e);
      }
    } else {
      DecodedMeans([], es);
    }
  }

  lemma {:induction false} MentionShift(es: seq<Element>, e: Entry)
    requires es != [] && es[0].AnyElement?
    ensures Mentioned(es, e) <==> Mentioned(es[1..], e)
  {
    var t := es[1..];
    assert forall i | 0 <= i < |t| :: t[i] == es[i + 1] && AnyBehind(t, i) == AnyBehind(es, i + 1);
    if i: nat :| FirstMention(es, e, i) {
      assert forall j | 0 <= j < i - 1 :: t[j] == es[j + 1];
      assert FirstMention(t, e, i - 1);
    }
    if i: nat :| FirstMention(t, e, i) {
      assert forall j | 1 <= j < i + 1 :: es[j] == t[j - 1];
      assert FirstMention(es, e, i + 1);
    }
  }

  predicate AllExcludable(s: Entries) { forall e | e in s :: e.key.At? ==> Excludable(e.key.comp) }

  lemma {:induction false} DecodesRest(s: Entries, k: nat)
    requires Sorted(s) && k <= |s| && AllExcludable(s) && forall j | 0 <= j < k :: s[j].key != NegInf
    ensures DecodeComponents(s[k..], Elements(s[..k])) == Ok(s)
  {
    if k == 0 {
      assert s[0..] == s && Elements(s[..0]) == [];
    } else {
      var e := s[k - 1];
      assert e in s;
      var tail := Elements(s[..k - 1]);
      assert s[..k][..k - 1] == s[..k - 1];
      assert Elements(s[..k]) == ElementsOf(e) + tail;
      assert tail != [] ==> !tail[0].AnyElement? by { FirstIsComponent(s[..k - 1]); }
      AppendOnTop(s, k);
      DecodesRest(s, k - 1);
      if e.any {
        assert (ElementsOf(e) + tail)[2..] == tail;
      } else {
        assert (ElementsOf(e) + tail)[1..] == tail;
      }
    }
  }

  lemma {:induction false} FirstIsComponent(s: Entries)
    requires forall e | e in s :: e.key != NegInf
    ensures Elements(s) != [] ==> Elements(s)[0].ComponentElement?
  {
    if s != [] {
      assert s[|s| - 1] in s;
    }
  }

  lemma {:induction false} AppendOnTop(s: Entries, k: nat)
    requires Sorted(s) && 0 < k <= |s|
    ensures Append(s[k..], s[k - 1]) == s[k - 1..]
  {
    if k < |s| {
      BelowFacts(s[k].key, s[k - 1].key, s[k].key);
    }
    assert LowerBound(s[k..], s[k - 1].key) == 0;
    assert s[k - 1..] == [s[k - 1]] + s[k..];
  }

  lemma {:induction false} RoundTripComponents(s: Entries)
    requires Sorted(s) && s != [] && AllExcludable(s) && forall e | e in s :: e.key != NegInf
    ensures WireDecode(Elements(s)) == Ok(s)
  {
    DecodesRest(s, |s|);
    assert s[..|s|] == s && s[|s|..] == [];
    FirstIsComponent(s);
    ElementsNonEmpty(s);
  }

  lemma {:induction false} RoundTripFromNegInf(s: Entries)
    requires Sorted(s) && s != [] && AllExcludable(s) && s[|s| - 1] == Entry(NegInf, true)
    ensures WireDecode(Elements(s)) == Ok(s)
  {
    var k := |s| - 1;
    OnlyLastIsNegInf(s, k);
    DecodesRest(s, k);
    StartsWithAny(s);
    DecodesAnyFirst(Elements(s[..k]));
  }

  lemma {:induction false} StartsWithAny(s: Entries)
    requires s != [] && s[|s| - 1] == Entry(NegInf, true)
    ensures s[|s| - 1..] == [Entry(NegInf, true)]
    ensures Elements(s) == [AnyElement] + Elements(s[..|s| - 1])
  {
  }

  lemma {:induction false} DecodesAnyFirst(es: seq<Element>)
    ensures WireDecode([AnyElement] + es) == DecodeComponents([Entry(NegInf, true)], es)
  {
    assert ([AnyElement] + es)[1..] == es;
  }

  /** Decoding what was encoded restores the list if and only if negative infinity carries ANY. */
  lemma {:induction false} RoundTrip(s: Entries)
    requires Sorted(s) && s != [] && AllExcludable(s)
    ensures WireDecode(Elements(s)) == Ok(s) <==> NegInfOk(s)
  {
    var k := |s| - 1;
    OnlyLastIsNegInf(s, k);
    assert s[k] in s && s == s[..k] + [s[k]];
    if s[k] == Entry(NegInf, false) {
      var t := s[..k];
      assert Elements(s) == [] + Elements(t) == Elements(t);
      if t != [] {
        RoundTripComponents(t);
      }
    } else if s[k].key == NegInf {
      RoundTripFromNegInf(s);
    } else {
      RoundTripComponents(s);
    }
  }

  lemma {:induction false} ElementsNonEmpty(s: Entries)
    requires s != [] && forall e | e in s :: e.key != NegInf
    ensures Elements(s) != []
  {
    assert s[|s| - 1] in s;
  }

  predicate CallExcludable(call: Call) {
    match call
    case One(c) => Excludable(c)
    case Range(from, to) => (from.At? ==> Excludable(from.comp)) && Excludable(to)
    case After(c) => Excludable(c)
  }

  lemma {:induction false} PerformExcludable(s: Entries, call: Call)
    requires Sorted(s) && AllExcludable(s) && CallExcludable(call)
    ensures AllExcludable(Perform(s, call))
  {
    forall e | e in Perform(s, call) ensures e.key.At? ==> Excludable(e.key.comp) {
      match call
      case One(c) => OneMembers(s, c, e);
      case Range(from, to) => if Accepted(call) { RangeMembers(s, from, to, e); }
      case After(c) => AfterMembers(s, c, e);
    }
  }

  /** Everything the calls can build from generic and digest components survives the wire. */
  lemma {:induction false} CallsRoundTrip(calls: seq<Call>)
    requires forall call | call in calls :: CallExcludable(call)
    ensures NegInfOk(PerformAll(calls)) && AllExcludable(PerformAll(calls))
    ensures PerformAll(calls) != [] ==> WireDecode(Elements(PerformAll(calls))) == Ok(PerformAll(calls))
  {
    if calls != [] {
      var k := |calls| - 1;
      CallsRoundTrip(calls[..k]);
      PerformNegInf(PerformAll(calls[..k]), calls[k]);
      PerformExcludable(PerformAll(calls[..k]), calls[k]);
      RoundTripOrEmpty(PerformAll(calls));
    }
  }

  lemma {:induction false} RoundTripOrEmpty(s: Entries)
    requires Sorted(s) && AllExcludable(s) && NegInfOk(s)
    ensures s != [] ==> WireDecode(Elements(s)) == Ok(s)
  {
    if s != [] {
      RoundTrip(s);
    }
  }

  // ---- The selector object ----

  class Selector {
    var entries: Entries

    ghost predicate Valid()
      reads this
    {
      Sorted(entries) && NegInfOk(entries)
    }

    constructor ()
      ensures Valid() && entries == []
    {
      entries := [];
    }

    method FindLowerBound(k: Key) returns (i: nat)
      ensures i == LowerBound(entries, k)
    {
      i := 0;
      while i < |entries| && !AtMost(entries[i].key, k)
        invariant i <= |entries| && LowerBound(entries, k) == i + LowerBound(entries[i..], k)
      {
        assert entries[i..][1..] == entries[i + 1..];
        i := i + 1;
      }
    }

    method Excludes(c: Component) returns (b: bool)
      ensures b == IsExcluded(entries, c)
    {
      var lb := FindLowerBound(At(c));
      b := lb < |entries| && (entries[lb].any || entries[lb].key == At(c));
    }

    method AddOne(c: Component)
      requires Valid()
      modifies this
      ensures Valid() && entries == Perform(old(entries), One(c))
      ensures forall d :: IsExcluded(entries, d) <==> old(IsExcluded(entries, d)) || d == c
    {
      PerformSorted(entries, One(c));
      PerformNegInf(entries, One(c));
      forall d { OneIsUnion(entries, c, d); }
      var b := Excludes(c);
      if !b {
        var lb := FindLowerBound(At(c));
        entries := entries[..lb] + [Entry(At(c), false)] + entries[lb..];
      }
    }

    /** The first half of `excludeRange` and `excludeAfter`: the position of the entry that starts the range. */
    method Open(from: Key) returns (newFrom: nat)
      modifies this
      ensures entries == OpenAt(old(entries), from) && newFrom == LowerBound(old(entries), from) < |entries|
    {
      newFrom := FindLowerBound(from);
      if newFrom == |entries| || !entries[newFrom].any {
        if newFrom < |entries| && entries[newFrom].key == from {
          entries := entries[newFrom := Entry(from, true)];
        } else {
          entries := entries[..newFrom] + [Entry(from, true)] + entries[newFrom..];
        }
      }
    }

    /** `excludeRange`; `excludeBefore` is the call with negative infinity. */
    method AddRange(from: Key, to: Component) returns (ok: bool)
      requires Valid()
      modifies this
      ensures Valid() && ok == Below(from, At(to)) && entries == Perform(old(entries), Range(from, to))
      ensures ok ==> forall c :: InRange(from, to, c) ==> IsExcluded(entries, c)
      ensures forall c :: IsExcluded(entries, c) ==> old(IsExcluded(entries, c)) || InRange(from, to, c)
    {
      ok := Below(from, At(to));
      if !ok {
        return;
      }
      PerformSorted(entries, Range(from, to));
      PerformNegInf(entries, Range(from, to));
      RangeIsUnion(entries, from, to);
      OpenPosition(entries, from, At(to));
      var newFrom := Open(from);
      BelowFacts(entries[newFrom].key, from, At(to));
      Close(newFrom, At(to));
    }

    /** The second half of `excludeRange`. */
    method Close(from: nat, to: Key)
      requires from < |entries| && LowerBound(entries, to) <= from && entries[from].key != to
      modifies this
      ensures entries == CloseAt(old(entries), from, to)
    {
      var newFrom := from;
      var newTo := FindLowerBound(to);
      ghost var s := entries;
      if newTo == newFrom || !entries[newTo].any {
        if entries[newTo].key != to {
          entries := entries[..newTo] + [Entry(to, false)] + entries[newTo..];
          newFrom := newFrom + 1;
          assert entries[newFrom..] == s[from..] && entries[..newTo + 1] == s[..newTo] + [Entry(to, false)];
        }
        newTo := newTo + 1;
      }
      entries := entries[..newTo] + entries[newFrom..];
    }

    method AddAfter(from: Component)
      requires Valid()
      modifies this
      ensures Valid() && entries == Perform(old(entries), After(from))
      ensures forall c :: IsExcluded(entries, c) <==> old(IsExcluded(entries, c)) || AtMost(At(from), At(c))
    {
      PerformSorted(entries, After(from));
      PerformNegInf(entries, After(from));
      forall c { AfterIsUnion(entries, from, c); }
      var newFrom := Open(At(from));
      entries := entries[newFrom..];
    }
  }
}
