/** Interests: matching against names and Data, and the two wire formats. */
module Interests {
  import opened Options
  import opened Components
  import opened Names
  import opened Exclude
  import opened ExcludeApi

  /** A negative suffix bound means that there is none. */
  datatype Selectors = Selectors(minSuffix: int, maxSuffix: int, publisher: Option<seq<Byte>>,
                                 exclude: Entries, child: nat, mustBeFresh: bool)

  datatype Delegation = Delegation(preference: nat, name: Name)

  datatype Interest = Interest(name: Name, selectors: Selectors, nonce: Option<nat>, lifetime: nat,
                               hint: seq<Delegation>, parameters: Option<seq<Byte>>)

  /** A Data packet with a wire encoding: its digest is the component that completes the full name. */
  datatype Data = Data(name: Name, digest: Component, keyLocator: Option<seq<Byte>>)

  function FullName(d: Data): Name { d.name + [d.digest] }

  // ---- Matching ----

  predicate MatchesName(i: Interest, n: Name) {
    var s, k := i.selectors, |i.name|;
    if |n| < k then false
    else if !(i.name <= n) then false
    else if s.minSuffix >= 0 && !(|n| - k >= s.minSuffix) then false
    else if s.maxSuffix >= 0 && !(|n| - k <= s.maxSuffix) then false
    else !(s.exclude != [] && |n| > k && IsExcluded(s.exclude, n[k]))
  }

  predicate PublisherMatches(i: Interest, d: Data) {
    i.selectors.publisher.Some? ==> d.keyLocator == i.selectors.publisher
  }

  /** Avoids computing the digest of the Data packet where it can. */
  predicate MatchesData(i: Interest, d: Data) {
    var s, k, full := i.selectors, |i.name|, |d.name| + 1;
    var min := if s.minSuffix >= 0 then s.minSuffix else 0;
    if !(k + min <= full) then false
    else if s.maxSuffix >= 0 && !(k + s.maxSuffix >= full) then false
    else if k == full && !(IsImplicitDigest(i.name[k - 1]) && i.name == FullName(d)) then false
    else if k != full && !(i.name <= d.name) then false
    else if s.exclude != [] && full > k
            && IsExcluded(s.exclude, if k == full - 1 then FullName(d)[k] else d.name[k]) then false
    else PublisherMatches(i, d)
  }

  /** The fast check agrees with matching the full name. */
  lemma {:induction false} DataMatchIsNameMatch(i: Interest, d: Data)
    requires IsImplicitDigest(d.digest)
    ensures MatchesData(i, d) <==> MatchesName(i, FullName(d)) && PublisherMatches(i, d)
  {
    var full, k := FullName(d), |i.name|;
    if k == |full| {
      assert i.name <= full <==> i.name == full;
      assert i.name == full ==> i.name[k - 1] == d.digest;
    } else if k < |full| {
      assert full[..k] == d.name[..k];
      assert k < |d.name| ==> full[k] == d.name[k];
    }
  }

  // ---- What each selector does to the matches ----

  /** Without selectors, an Interest matches the names under its own. */
  lemma {:induction false} PrefixMatches(i: Interest, n: Name)
    requires i.selectors == DEFAULT_SELECTORS
    ensures MatchesName(i, n) <==> i.name <= n
  {
  }

  /** ... and the Data packets whose name is under its own or whose full name is its own. */
  lemma {:induction false} PrefixMatchesData(i: Interest, d: Data)
    requires i.selectors == DEFAULT_SELECTORS && d.digest.typ == 1 && |d.digest.value| == 32
    ensures MatchesData(i, d) <==> i.name <= d.name || i.name == d.name + [d.digest]
  {
    DataMatchIsNameMatch(i, d);
    var full := d.name + [d.digest];
    if i.name <= full && |i.name| < |full| {
      assert i.name == full[..|i.name|] == d.name[..|i.name|];
    }
    assert |i.name| == |full| ==> (i.name <= full <==> i.name == full);
  }

  /** A lower or upper bound on the suffix takes away exactly the names that break it. */
  lemma {:induction false} SuffixBounds(i: Interest, n: Name, m: nat)
    ensures MatchesName(i.(selectors := i.selectors.(minSuffix := m)), n) <==>
            MatchesName(i.(selectors := i.selectors.(minSuffix := -1)), n) && |n| >= |i.name| + m
    ensures MatchesName(i.(selectors := i.selectors.(maxSuffix := m)), n) <==>
            MatchesName(i.(selectors := i.selectors.(maxSuffix := -1)), n) && |n| <= |i.name| + m
  {
  }

  /** A call on the Exclude selector takes away exactly the names whose next component it denotes. */
  lemma {:induction false} ExcludeFilters(i: Interest, n: Name, call: Call)
    requires Sorted(i.selectors.exclude) && CutsNothing(i.selectors.exclude, call)
    ensures MatchesName(i.(selectors := i.selectors.(exclude := Perform(i.selectors.exclude, call))), n) <==>
            MatchesName(i, n) && !(|n| > |i.name| && Denotes(call, n[|i.name|]))
  {
    PerformIsUnion(i.selectors.exclude, call);
    if |n| > |i.name| {
      assert IsExcluded(Perform(i.selectors.exclude, call), n[|i.name|]) <==>
             IsExcluded(i.selectors.exclude, n[|i.name|]) || Denotes(call, n[|i.name|]);
    }
  }

  /** A publisher takes away exactly the Data packets with another key locator, or none. */
  lemma {:induction false} PublisherFilters(i: Interest, d: Data, p: seq<Byte>)
    ensures MatchesData(i.(selectors := i.selectors.(publisher := Some(p))), d) <==>
            MatchesData(i.(selectors := i.selectors.(publisher := None)), d) && d.keyLocator == Some(p)
  {
  }

  // ---- Selectors on the wire ----

  datatype SelectorElement =
    | MinElement(n: nat) | MaxElement(n: nat) | KeyLocatorElement(bytes: seq<Byte>)
    | ExcludeElement(elements: seq<Element>) | ChildElement(n: nat) | FreshElement

  function KindOf(x: SelectorElement): nat {
    match x
    case MinElement(_) => 0
    case MaxElement(_) => 1
    case KeyLocatorElement(_) => 2
    case ExcludeElement(_) => 3
    case ChildElement(_) => 4
    case FreshElement => 5
  }

  const DEFAULT_SELECTORS := Selectors(-1, -1, None, [], 0, false)

  predicate SelectorsEmpty(s: Selectors) {
    s.minSuffix < 0 && s.maxSuffix < 0 && s.publisher.None? && s.exclude == [] && s.child == 0 && !s.mustBeFresh
  }

  function List<T>(x: Option<T>): seq<T> { if x.Some? then [x.value] else [] }

  function EncodedMin(s: Selectors): Option<SelectorElement> {
    if s.minSuffix >= 0 then Some(MinElement(s.minSuffix)) else None
  }

  function EncodedMax(s: Selectors): Option<SelectorElement> {
    if s.maxSuffix >= 0 then Some(MaxElement(s.maxSuffix)) else None
  }

  function EncodedPublisher(s: Selectors): Option<SelectorElement> {
    if s.publisher.Some? then Some(KeyLocatorElement(s.publisher.value)) else None
  }
  function EncodedExclude(s: Selectors): Option<SelectorElement> {
    if s.exclude != [] then Some(ExcludeElement(Elements(s.exclude))) else None
  }
  function EncodedChild(s: Selectors): Option<SelectorElement> {
    if s.child != 0 then Some(ChildElement(s.child)) else None
  }

  function EncodedFresh(s: Selectors): Option<SelectorElement> { if s.mustBeFresh then Some(FreshElement) else None }

  function EncodeSelectors(s: Selectors): seq<SelectorElement> {
    List(EncodedMin(s)) + (List(EncodedMax(s)) + (List(EncodedPublisher(s)) + LastSelectors(s)))
  }

  function LastSelectors(s: Selectors): seq<SelectorElement> {
    List(EncodedExclude(s)) + (List(EncodedChild(s)) + (List(EncodedFresh(s)) + []))
  }

  /** The first element of a kind. */
  function Find(xs: seq<SelectorElement>, kind: nat): (x: Option<SelectorElement>)
    ensures x.Some? ==> KindOf(x.value) == kind
  {
    if xs == [] then None else if KindOf(xs[0]) == kind then Some(xs[0]) else Find(xs[1..], kind)
  }

  lemma {:induction false} FindOptional(x: Option<SelectorElement>, rest: seq<SelectorElement>, kind: nat)
    ensures Find(List(x) + rest, kind) == if x.Some? && KindOf(x.value) == kind then x else Find(rest, kind)
  {
    if x.Some? {
      assert (List(x) + rest)[1..] == rest;
    } else {
      assert List(x) + rest == rest;
    }
  }

  function DecodeExclude(x: Option<SelectorElement>): Result<Entries>
    requires x.Some? ==> x.value.ExcludeElement?
  {
    if x.None? then Ok([]) else WireDecode(x.value.elements)
  }

  function DecodeSelectors(xs: seq<SelectorElement>): Result<Selectors> {
    var min, max, key := Find(xs, 0), Find(xs, 1), Find(xs, 2);
    var exclude, child := DecodeExclude(Find(xs, 3)), Find(xs, 4);
    if exclude.Error? || (child.Some? && child.value.n > 1) then Error
    else Ok(Selectors(if min.Some? then min.value.n else -1, if max.Some? then max.value.n else -1,
                      if key.Some? then Some(key.value.bytes) else None,
                      exclude.value, if child.Some? then child.value.n else 0, Find(xs, 5).Some?))
  }

  /** What the setters and the Exclude operations can produce. */
  predicate SelectorsOk(s: Selectors) {
    && s.minSuffix >= -1 && s.maxSuffix >= -1 && s.child <= 1
    && Sorted(s.exclude) && NegInfOk(s.exclude) && AllExcludable(s.exclude)
  }

  function EncodedKind(s: Selectors, kind: nat): Option<SelectorElement> {
    match kind
    case 0 => EncodedMin(s)
    case 1 => EncodedMax(s)
    case 2 => EncodedPublisher(s)
    case 3 => EncodedExclude(s)
    case 4 => EncodedChild(s)
    case 5 => EncodedFresh(s)
    case _ => None
  }

  lemma {:induction false} FindLast(s: Selectors, kind: nat)
    ensures Find(LastSelectors(s), kind) == if kind < 3 then None else EncodedKind(s, kind)
  {
    var r5 := List(EncodedFresh(s)) + [];
    var r4 := List(EncodedChild(s)) + r5;
    FindOptional(EncodedExclude(s), r4, kind);
    FindOptional(EncodedChild(s), r5, kind);
    FindOptional(EncodedFresh(s), [], kind);
  }

  lemma {:induction false} FindEncoded(s: Selectors, kind: nat)
    ensures Find(EncodeSelectors(s), kind) == EncodedKind(s, kind)
  {
    var r3 := LastSelectors(s);
    var r2 := List(EncodedPublisher(s)) + r3;
    var r1 := List(EncodedMax(s)) + r2;
    FindOptional(EncodedMin(s), r1, kind);
    FindOptional(EncodedMax(s), r2, kind);
    FindOptional(EncodedPublisher(s), r3, kind);
    FindLast(s, kind);
  }

  lemma {:induction false} DecodesFound(s: Selectors, xs: seq<SelectorElement>)
    requires SelectorsOk(s)
    requires Find(xs, 0) == EncodedMin(s) && Find(xs, 1) == EncodedMax(s) && Find(xs, 2) == EncodedPublisher(s)
    requires Find(xs, 3) == EncodedExclude(s) && Find(xs, 4) == EncodedChild(s) && Find(xs, 5) == EncodedFresh(s)
    ensures DecodeSelectors(xs) == Ok(s)
  {
    RoundTripOrEmpty(s.exclude);
  }

  lemma {:induction false} SelectorsRoundTrip(s: Selectors)
    requires SelectorsOk(s)
    ensures DecodeSelectors(EncodeSelectors(s)) == Ok(s)
  {
    forall kind: nat { FindEncoded(s, kind); }
    var xs := EncodeSelectors(s);
    assert Find(xs, 0) == EncodedKind(s, 0) && Find(xs, 1) == EncodedKind(s, 1) && Find(xs, 2) == EncodedKind(s, 2);
    assert Find(xs, 3) == EncodedKind(s, 3) && Find(xs, 4) == EncodedKind(s, 4) && Find(xs, 5) == EncodedKind(s, 5);
    DecodesFound(s, xs);
  }

  // ---- Delegations ----

  predicate DelegationLess(a: Delegation, b: Delegation) {
    a.preference < b.preference || (a.preference == b.preference && NameLess(a.name, b.name))
  }

  predicate DelegationsSorted(ds: seq<Delegation>) { forall i, j | 0 <= i < j < |ds| :: !DelegationLess(ds[j], ds[i]) }

  /** Insertion before the first greater delegation. */
  function InsertDelegation(ds: seq<Delegation>, d: Delegation): seq<Delegation> {
    if ds == [] then [d]
    else if DelegationLess(d, ds[0]) then [d] + ds
    else [ds[0]] + InsertDelegation(ds[1..], d)
  }

  function SortDelegations(ds: seq<Delegation>): seq<Delegation> {
    if ds == [] then [] else InsertDelegation(SortDelegations(ds[..|ds| - 1]), ds[|ds| - 1])
  }

  lemma {:induction false} NotLessTransitive(a: Delegation, b: Delegation, c: Delegation)
    requires !DelegationLess(b, a) && !DelegationLess(c, b)
    ensures !DelegationLess(c, a)
  {
    if a.preference == b.preference == c.preference {
      CompareNamesFlip(a.name, b.name);
      CompareNamesFlip(b.name, c.name);
      CompareNamesFlip(a.name, c.name);
      if NameLess(a.name, b.name) && NameLess(b.name, c.name) {
        NameLessTransitive(a.name, b.name, c.name);
      }
    }
  }

  lemma {:induction false} LessIsNotGreater(a: Delegation, b: Delegation)
    requires DelegationLess(a, b)
    ensures !DelegationLess(b, a)
  {
    CompareNamesFlip(a.name, b.name);
  }

  lemma {:induction false} InsertPermutes(ds: seq<Delegation>, d: Delegation)
    ensures multiset(InsertDelegation(ds, d)) == multiset(ds) + multiset{d}
  {
    if ds != [] {
      InsertPermutes(ds[1..], d);
      assert ds == [ds[0]] + ds[1..];
    }
  }

  lemma {:induction false} InsertSorted(ds: seq<Delegation>, d: Delegation)
    requires DelegationsSorted(ds)
    ensures DelegationsSorted(InsertDelegation(ds, d))
    ensures forall x :: x in InsertDelegation(ds, d) <==> x in ds || x == d
  {
    InsertPermutes(ds, d);
    if ds != [] {
      if DelegationLess(d, ds[0]) {
        forall x | x in ds ensures !DelegationLess(x, d) {
          var i :| 0 <= i < |ds| && ds[i] == x;
          LessIsNotGreater(d, ds[0]);
          if i > 0 { NotLessTransitive(d, ds[0], x); }
        }
      } else {
        InsertSorted(ds[1..], d);
        var r := InsertDelegation(ds[1..], d);
        forall x | x in r ensures !DelegationLess(x, ds[0]) {
          if x in ds[1..] {
            var i :| 0 < i < |ds| && ds[i] == x;
          }
        }
        assert forall i | 0 <= i < |r| :: r[i] in r;
      }
    }
  }

  lemma {:induction false} InsertAtEnd(ds: seq<Delegation>, d: Delegation)
    requires forall x | x in ds :: !DelegationLess(d, x)
    ensures InsertDelegation(ds, d) == ds + [d]
  {
    if ds != [] {
      InsertAtEnd(ds[1..], d);
      assert ds + [d] == [ds[0]] + (ds[1..] + [d]);
    }
  }

  /** In a sorted list preferences ascend, and names ascend where preferences are equal. */
  lemma {:induction false} SortedMeans(ds: seq<Delegation>, i: nat, j: nat)
    requires DelegationsSorted(ds) && i < j < |ds|
    ensures ds[i].preference <= ds[j].preference
    ensures ds[i].preference == ds[j].preference ==> CompareNames(ds[i].name, ds[j].name) <= 0
  {
    CompareNamesFlip(ds[i].name, ds[j].name);
  }

  /** Sorting keeps exactly the given delegations, in order, and leaves a sorted list alone. */
  lemma {:induction false} SortSorts(ds: seq<Delegation>)
    ensures DelegationsSorted(SortDelegations(ds))
    ensures multiset(SortDelegations(ds)) == multiset(ds)
    ensures DelegationsSorted(ds) ==> SortDelegations(ds) == ds
  {
    if ds != [] {
      var k := |ds| - 1;
      SortSorts(ds[..k]);
      assert ds == ds[..k] + [ds[k]];
      InsertPermutes(SortDelegations(ds[..k]), ds[k]);
      InsertSorted(SortDelegations(ds[..k]), ds[k]);
      if DelegationsSorted(ds) {
        forall x | x in ds[..k] ensures !DelegationLess(ds[k], x) {}
        InsertAtEnd(ds[..k], ds[k]);
      }
    }
  }

  // ---- The packet ----

  const DEFAULT_INTEREST_LIFETIME: nat := 4000
  const NONCE_SIZE: nat := 4

  /** The TLV elements inside an Interest, with the value sizes that decoding looks at. */
  datatype PacketElement =
    | NameElement(name: Name) | SelectorsElement(selectors: seq<SelectorElement>)
    | NonceElement(nonce: nat, size: nat) | LifetimeElement(ms: nat) | HintElement(hint: seq<Delegation>)
    | CanBePrefixElement(size: nat) | MustBeFreshElement(size: nat) | HopLimitElement(size: nat)
    | ParametersElement(bytes: seq<Byte>) | OtherElement(typ: nat)

  predicate CanBePrefix(s: Selectors) { s.maxSuffix != 1 }

  function LifetimePart(i: Interest): seq<PacketElement> {
    if i.lifetime != DEFAULT_INTEREST_LIFETIME then [LifetimeElement(i.lifetime)] else []
  }

  function HintPart(i: Interest): seq<PacketElement> { if i.hint != [] then [HintElement(i.hint)] else [] }

  function Encode02(i: Interest, nonce: nat): seq<PacketElement> {
    [NameElement(i.name)]
    + (if SelectorsEmpty(i.selectors) then [] else [SelectorsElement(EncodeSelectors(i.selectors))])
    + [NonceElement(nonce, NONCE_SIZE)] + LifetimePart(i) + HintPart(i)
  }

  function Part4(i: Interest, bytes: seq<Byte>): seq<PacketElement> { LifetimePart(i) + [ParametersElement(bytes)] }
  function Part3(i: Interest, bytes: seq<Byte>, nonce: nat): seq<PacketElement> {
    [NonceElement(nonce, NONCE_SIZE)] + Part4(i, bytes)
  }
  function Part2(i: Interest, bytes: seq<Byte>, nonce: nat): seq<PacketElement> { HintPart(i) + Part3(i, bytes, nonce) }
  function Part1(i: Interest, bytes: seq<Byte>, nonce: nat): seq<PacketElement> {
    (if i.selectors.mustBeFresh then [MustBeFreshElement(0)] else []) + Part2(i, bytes, nonce)
  }
  function Part0(i: Interest, bytes: seq<Byte>, nonce: nat): seq<PacketElement> {
    (if CanBePrefix(i.selectors) then [CanBePrefixElement(0)] else []) + Part1(i, bytes, nonce)
  }

  function Encode03(i: Interest, bytes: seq<Byte>, nonce: nat): seq<PacketElement> {
    [NameElement(i.name)] + Part0(i, bytes, nonce)
  }

  /** `random` stands for the nonce generated when none is set. */
  function NonceOf(i: Interest, random: nat): nat { if i.nonce.Some? then i.nonce.value else random }

  function Encode(i: Interest, random: nat): seq<PacketElement> {
    if i.parameters.Some? then Encode03(i, i.parameters.value, NonceOf(i, random)) else Encode02(i, NonceOf(i, random))
  }

  datatype Outcome = Decoded(interest: Interest) | Rejected | Malformed

  /** The v0.2 tail: an optional lifetime, then an optional ForwardingHint, then the end. */
  function DecodeTail02(name: Name, sel: Selectors, nonce: nat, xs: seq<PacketElement>): Outcome {
    var hasLifetime := xs != [] && xs[0].LifetimeElement?;
    var lifetime := if hasLifetime then xs[0].ms else DEFAULT_INTEREST_LIFETIME;
    var ys := if hasLifetime then xs[1..] else xs;
    var hasHint := ys != [] && ys[0].HintElement?;
    if hasHint && ys[0].hint == [] then Malformed
    else if (if hasHint then |ys| > 1 else ys != []) then Rejected
    else Decoded(Interest(name, sel, Some(nonce), lifetime, if hasHint then ys[0].hint else [], None))
  }

  function Decode02(xs: seq<PacketElement>): Outcome {
    if xs == [] || !xs[0].NameElement? then Rejected
    else
      var ys := xs[1..];
      var hasSelectors := ys != [] && ys[0].SelectorsElement?;
      var sel := if hasSelectors then DecodeSelectors(ys[0].selectors) else Ok(DEFAULT_SELECTORS);
      if sel.Error? then Malformed
      else
        var zs := if hasSelectors then ys[1..] else ys;
        if zs == [] || !zs[0].NonceElement? then Rejected
        else if zs[0].size != NONCE_SIZE then Malformed
        else DecodeTail02(xs[0].name, sel.value, zs[0].nonce, zs[1..])
  }

  predicate IsCriticalType(t: nat) { t <= 31 || t % 2 == 1 }

  /** The v0.3 loop: `st` is what has been read so far, `last` the index of the last recognized element. */
  function Decode03(st: Interest, last: nat, xs: seq<PacketElement>): Outcome
    decreases xs
  {
    if xs == [] then Decoded(st)
    else
      var rest := xs[1..];
      match xs[0]
      case NameElement(n) =>
        if last >= 1 || n == [] then Malformed else Decode03(st.(name := n), 1, rest)
      case CanBePrefixElement(size) =>
        if last >= 2 || size != 0 then Malformed
        else Decode03(st.(selectors := st.selectors.(maxSuffix := -1)), 2, rest)
      case MustBeFreshElement(size) =>
        if last >= 3 || size != 0 then Malformed
        else Decode03(st.(selectors := st.selectors.(mustBeFresh := true)), 3, rest)
      case HintElement(ds) =>
        if last >= 4 || ds == [] then Malformed else Decode03(st.(hint := SortDelegations(ds)), 4, rest)
      case NonceElement(v, size) =>
        if last >= 5 || size != NONCE_SIZE then Malformed else Decode03(st.(nonce := Some(v)), 5, rest)
      case LifetimeElement(ms) =>
        if last >= 6 then Malformed else Decode03(st.(lifetime := ms), 6, rest)
      case HopLimitElement(size) =>
        if last >= 7 then Decode03(st, last, rest) else if size != 1 then Malformed else Decode03(st, 7, rest)
      case ParametersElement(bytes) =>
        if last >= 8 then Malformed else Decode03(st.(parameters := Some(bytes)), 8, rest)
      case SelectorsElement(_) => Malformed
      case OtherElement(t) => if IsCriticalType(t) then Malformed else Decode03(st, last, rest)
  }

  const START03 := Interest([], DEFAULT_SELECTORS.(maxSuffix := 1), None, DEFAULT_INTEREST_LIFETIME, [], None)

  predicate HasName(xs: seq<PacketElement>) { exists k :: 0 <= k < |xs| && xs[k].NameElement? }

  /** `wireDecode` into a fresh object; `random` is the nonce for a v0.3 packet without one. */
  function Decode(xs: seq<PacketElement>, random: nat): Outcome {
    var r := Decode02(xs);
    if !r.Rejected? then r
    else
      var r' := Decode03(START03, 0, xs);
      if !HasName(xs) then Malformed
      else if r'.Decoded? && r'.interest.nonce.None? then Decoded(r'.interest.(nonce := Some(random)))
      else r'
  }

  lemma {:induction false} DecodesTail02(i: Interest, nonce: nat)
    requires i.parameters.None?
    ensures DecodeTail02(i.name, i.selectors, nonce, LifetimePart(i) + HintPart(i)) == Decoded(i.(nonce := Some(nonce)))
  {
    var xs := LifetimePart(i) + HintPart(i);
    if i.lifetime != DEFAULT_INTEREST_LIFETIME {
      assert xs[1..] == HintPart(i);
    } else {
      assert xs == HintPart(i);
    }
  }

  lemma {:induction false} Decodes02(i: Interest, nonce: nat)
    requires i.parameters.None? && SelectorsOk(i.selectors)
    ensures Decode02(Encode02(i, nonce)) == Decoded(i.(nonce := Some(nonce)))
  {
    var tail := LifetimePart(i) + HintPart(i);
    DecodesTail02(i, nonce);
    Layout02(i, nonce, tail);
    if !SelectorsEmpty(i.selectors) {
      SelectorsRoundTrip(i.selectors);
      DecodesWithSelectors(Encode02(i, nonce), i.name, EncodeSelectors(i.selectors), i.selectors, nonce, tail);
    } else {
      DecodesWithoutSelectors(Encode02(i, nonce), i.name, nonce, tail);
    }
  }

  lemma {:induction false} Layout02(i: Interest, nonce: nat, tail: seq<PacketElement>)
    requires i.parameters.None? && tail == LifetimePart(i) + HintPart(i)
    ensures Encode02(i, nonce) ==
      if SelectorsEmpty(i.selectors) then [NameElement(i.name), NonceElement(nonce, NONCE_SIZE)] + tail
      else [NameElement(i.name), SelectorsElement(EncodeSelectors(i.selectors)), NonceElement(nonce, NONCE_SIZE)] + tail
  {
  }

  lemma {:induction false} DecodesWithoutSelectors(xs: seq<PacketElement>, name: Name, nonce: nat,
      tail: seq<PacketElement>)
    requires xs == [NameElement(name), NonceElement(nonce, NONCE_SIZE)] + tail
    ensures Decode02(xs) == DecodeTail02(name, DEFAULT_SELECTORS, nonce, tail)
  {
    assert xs[1..][1..] == tail;
  }

  /** Without Parameters, the v0.2 decoder accepts what was encoded and restores every field. */
  lemma {:induction false} RoundTrip02(i: Interest, random: nat, random': nat)
    requires i.parameters.None? && SelectorsOk(i.selectors)
    ensures Decode(Encode(i, random), random') == Decoded(if i.nonce.Some? then i else i.(nonce := Some(random)))
  {
    Decodes02(i, NonceOf(i, random));
  }

  lemma {:induction false} DecodesWithSelectors(xs: seq<PacketElement>, name: Name, es: seq<SelectorElement>,
      s: Selectors, nonce: nat, tail: seq<PacketElement>)
    requires xs == [NameElement(name), SelectorsElement(es), NonceElement(nonce, NONCE_SIZE)] + tail
    requires DecodeSelectors(es) == Ok(s)
    ensures Decode02(xs) == DecodeTail02(name, s, nonce, tail)
  {
    assert xs[1..][1..] == xs[2..] && xs[2..][1..] == tail;
  }

  /** What decoding a v0.3 packet restores. */
  function Restored03(i: Interest, nonce: nat): Interest {
    Interest(i.name, Selectors(-1, if CanBePrefix(i.selectors) then -1 else 1, None, [], 0, i.selectors.mustBeFresh),
             Some(nonce), i.lifetime, SortDelegations(i.hint), i.parameters)
  }

  lemma {:induction false} NotA02Packet(i: Interest, bytes: seq<Byte>, nonce: nat)
    ensures Decode02(Encode03(i, bytes, nonce)) == Rejected
  {
    var xs := Encode03(i, bytes, nonce);
    assert xs[1..] == Part0(i, bytes, nonce);
    if !CanBePrefix(i.selectors) && !i.selectors.mustBeFresh && i.hint == [] {
      assert Part0(i, bytes, nonce) == Part3(i, bytes, nonce);
      assert Part3(i, bytes, nonce)[1..] == Part4(i, bytes);
    }
  }

  lemma {:induction false} Decodes4(st: Interest, last: nat, i: Interest, bytes: seq<Byte>)
    requires last <= 5 && st.lifetime == DEFAULT_INTEREST_LIFETIME
    ensures Decode03(st, last, Part4(i, bytes)) == Decoded(st.(lifetime := i.lifetime, parameters := Some(bytes)))
  {
    var xs := Part4(i, bytes);
    if i.lifetime != DEFAULT_INTEREST_LIFETIME {
      assert xs[1..] == [ParametersElement(bytes)] && xs[1..][1..] == [];
      var st' := st.(lifetime := i.lifetime);
      assert Decode03(st', 6, xs[1..]) == Decode03(st'.(parameters := Some(bytes)), 8, []);
    } else {
      assert xs[1..] == [];
    }
  }

  lemma {:induction false} Decodes2(st: Interest, last: nat, i: Interest, bytes: seq<Byte>, nonce: nat)
    requires last <= 3 && st.lifetime == DEFAULT_INTEREST_LIFETIME && st.hint == []
    ensures Decode03(st, last, Part2(i, bytes, nonce)) ==
            Decoded(st.(hint := SortDelegations(i.hint), nonce := Some(nonce), lifetime := i.lifetime,
                        parameters := Some(bytes)))
  {
    var xs := Part2(i, bytes, nonce);
    assert Part3(i, bytes, nonce)[1..] == Part4(i, bytes);
    var st' := st.(hint := SortDelegations(i.hint), nonce := Some(nonce));
    Decodes4(st', 5, i, bytes);
    if i.hint != [] {
      assert xs[1..] == Part3(i, bytes, nonce);
    } else {
      assert xs == Part3(i, bytes, nonce);
    }
  }

  lemma {:induction false} Decodes0(st: Interest, i: Interest, bytes: seq<Byte>, nonce: nat)
    requires st == START03.(name := i.name) && i.parameters == Some(bytes)
    ensures Decode03(st, 1, Part0(i, bytes, nonce)) == Decoded(Restored03(i, nonce))
  {
    var s0 := if CanBePrefix(i.selectors) then st.(selectors := st.selectors.(maxSuffix := -1)) else st;
    var l0 := if CanBePrefix(i.selectors) then 2 else 1;
    var s1 := if i.selectors.mustBeFresh then s0.(selectors := s0.selectors.(mustBeFresh := true)) else s0;
    var l1 := if i.selectors.mustBeFresh then 3 else l0;
    Decodes2(s1, l1, i, bytes, nonce);
    assert Decode03(s0, l0, Part1(i, bytes, nonce)) == Decode03(s1, l1, Part2(i, bytes, nonce)) by {
      if i.selectors.mustBeFresh {
        assert Part1(i, bytes, nonce)[1..] == Part2(i, bytes, nonce);
      } else {
        assert Part1(i, bytes, nonce) == Part2(i, bytes, nonce);
      }
    }
    if CanBePrefix(i.selectors) {
      assert Part0(i, bytes, nonce)[1..] == Part1(i, bytes, nonce);
    } else {
      assert Part0(i, bytes, nonce) == Part1(i, bytes, nonce);
    }
  }

  /** With Parameters, the v0.2 decoder steps aside, and the v0.3 decoder restores name, CanBePrefix,
      MustBeFresh, nonce, lifetime and Parameters unless the name is empty; the ForwardingHint comes
      back exactly when it was sorted. */
  lemma {:induction false} RoundTrip03(i: Interest, random: nat, random': nat)
    requires i.parameters.Some?
    ensures i.name == [] ==> Decode(Encode(i, random), random') == Malformed
    ensures i.name != [] ==> Decode(Encode(i, random), random').Decoded?
    ensures i.name != [] ==> var x := Decode(Encode(i, random), random').interest;
      && x.name == i.name && (x.selectors.maxSuffix == 1 <==> i.selectors.maxSuffix == 1)
      && x.selectors.mustBeFresh == i.selectors.mustBeFresh && x.lifetime == i.lifetime && x.parameters == i.parameters
      && x.nonce == (if i.nonce.Some? then i.nonce else Some(random))
      && multiset(x.hint) == multiset(i.hint) && (x.hint == i.hint <==> DelegationsSorted(i.hint))
  {
    var bytes, nonce := i.parameters.value, NonceOf(i, random);
    var xs := Encode03(i, bytes, nonce);
    NotA02Packet(i, bytes, nonce);
    assert xs[0].NameElement? && xs[1..] == Part0(i, bytes, nonce);
    if i.name != [] {
      Decodes0(START03.(name := i.name), i, bytes, nonce);
    }
    SortSorts(i.hint);
  }

  // ---- The wire formats, element by element ----

  /** The v0.2 packet: name, selectors if any, nonce, lifetime unless the default, hint if any. */
  lemma {:induction false} Written02(i: Interest, random: nat)
    requires i.parameters.None?
    ensures Encode(i, random) ==
      [NameElement(i.name)]
      + (if SelectorsEmpty(i.selectors) then [] else [SelectorsElement(EncodeSelectors(i.selectors))])
      + [NonceElement(if i.nonce.Some? then i.nonce.value else random, 4)]
      + (if i.lifetime == 4000 then [] else [LifetimeElement(i.lifetime)])
      + (if i.hint == [] then [] else [HintElement(i.hint)])
  {
  }

  /** The v0.3 packet: name, CanBePrefix, MustBeFresh, hint, nonce, lifetime unless the default, Parameters. */
  lemma {:induction false} Written03(i: Interest, random: nat)
    requires i.parameters.Some?
    ensures Encode(i, random) ==
      [NameElement(i.name)]
      + (if i.selectors.maxSuffix == 1 then [] else [CanBePrefixElement(0)])
      + (if i.selectors.mustBeFresh then [MustBeFreshElement(0)] else [])
      + (if i.hint == [] then [] else [HintElement(i.hint)])
      + [NonceElement(if i.nonce.Some? then i.nonce.value else random, 4)]
      + (if i.lifetime == 4000 then [] else [LifetimeElement(i.lifetime)])
      + [ParametersElement(i.parameters.value)]
  {
    var bytes, nonce := i.parameters.value, NonceOf(i, random);
    var a, b := [NameElement(i.name)], if CanBePrefix(i.selectors) then [CanBePrefixElement(0)] else [];
    var c := if i.selectors.mustBeFresh then [MustBeFreshElement(0)] else [];
    Assoc(a, b, Part1(i, bytes, nonce));
    Assoc(a + b, c, Part2(i, bytes, nonce));
    Assoc(a + b + c, HintPart(i), Part3(i, bytes, nonce));
    Assoc(a + b + c + HintPart(i), [NonceElement(nonce, 4)], Part4(i, bytes));
    Assoc(a + b + c + HintPart(i) + [NonceElement(nonce, 4)], LifetimePart(i), [ParametersElement(bytes)]);
  }

  lemma {:induction false} Assoc(x: seq<PacketElement>, y: seq<PacketElement>, z: seq<PacketElement>)
    ensures x + (y + z) == x + y + z
  {
  }

  /** Which selectors are written: those that are set, with their values. */
  lemma {:induction false} SelectorsWritten(s: Selectors)
    requires s.minSuffix >= -1 && s.maxSuffix >= -1
    ensures forall n: nat :: MinElement(n) in EncodeSelectors(s) <==> s.minSuffix == n
    ensures forall n: nat :: MaxElement(n) in EncodeSelectors(s) <==> s.maxSuffix == n
    ensures forall b :: KeyLocatorElement(b) in EncodeSelectors(s) <==> s.publisher == Some(b)
    ensures forall x :: ExcludeElement(x) in EncodeSelectors(s) <==> s.exclude != [] && x == Elements(s.exclude)
    ensures forall n: nat :: ChildElement(n) in EncodeSelectors(s) <==> n == s.child && n != 0
    ensures FreshElement in EncodeSelectors(s) <==> s.mustBeFresh
  {
    forall x ensures x in EncodeSelectors(s) <==>
      || EncodedMin(s) == Some(x) || EncodedMax(s) == Some(x) || EncodedPublisher(s) == Some(x)
      || EncodedExclude(s) == Some(x) || EncodedChild(s) == Some(x) || EncodedFresh(s) == Some(x)
    {
      InLast(s, x);
      var r2 := List(EncodedPublisher(s)) + LastSelectors(s);
      InFront(EncodedPublisher(s), LastSelectors(s), x);
      InFront(EncodedMax(s), r2, x);
      InFront(EncodedMin(s), List(EncodedMax(s)) + r2, x);
    }
  }

  lemma {:induction false} InFront(y: Option<SelectorElement>, rest: seq<SelectorElement>, x: SelectorElement)
    ensures x in List(y) + rest <==> y == Some(x) || x in rest
  {
  }

  lemma {:induction false} InLast(s: Selectors, x: SelectorElement)
    ensures x in LastSelectors(s) <==>
      EncodedExclude(s) == Some(x) || EncodedChild(s) == Some(x) || EncodedFresh(s) == Some(x)
  {
    InFront(EncodedFresh(s), [], x);
    InFront(EncodedChild(s), List(EncodedFresh(s)) + [], x);
    InFront(EncodedExclude(s), List(EncodedChild(s)) + (List(EncodedFresh(s)) + []), x);
  }

  /** Where the nonce stands in a v0.2 packet. */
  function NonceAt(xs: seq<PacketElement>): nat { if |xs| > 1 && xs[1].SelectorsElement? then 2 else 1 }

  /** Where the hint would stand. */
  function HintAt(xs: seq<PacketElement>): nat {
    var k := NonceAt(xs) + 1;
    if |xs| > k && xs[k].LifetimeElement? then k + 1 else k
  }

  /** Name, optional selectors, nonce of four bytes, optional lifetime, optional hint that is not empty,
      and nothing else. */
  predicate Form02(xs: seq<PacketElement>) {
    var k, h := NonceAt(xs), HintAt(xs);
    && |xs| > k && xs[0].NameElement? && (k == 2 ==> DecodeSelectors(xs[1].selectors).Ok?)
    && xs[k].NonceElement? && xs[k].size == 4
    && (|xs| == h || (|xs| == h + 1 && xs[h].HintElement? && xs[h].hint != []))
  }

  /** The v0.2 decoder accepts exactly the packets of that form, and reads every field from its place. */
  lemma {:induction false} Accepts02(xs: seq<PacketElement>)
    ensures Decode02(xs).Decoded? <==> Form02(xs)
    ensures Form02(xs) ==>
      var x, k, h := Decode02(xs).interest, NonceAt(xs), HintAt(xs);
      && x.name == xs[0].name && x.nonce == Some(xs[k].nonce) && x.parameters.None?
      && x.selectors == (if k == 2 then DecodeSelectors(xs[1].selectors).value else DEFAULT_SELECTORS)
      && x.lifetime == (if h == k + 2 then xs[k + 1].ms else 4000) && x.hint == (if |xs| > h then xs[h].hint else [])
  {
    if |xs| > NonceAt(xs) && xs[0].NameElement? {
      var k := NonceAt(xs);
      var zs := if k == 2 then xs[1..][1..] else xs[1..];
      assert zs == xs[k..] && zs[1..] == xs[k + 1..];
      Tail02(xs, xs[k + 1..]);
    }
  }

  lemma {:induction false} Tail02(xs: seq<PacketElement>, tail: seq<PacketElement>)
    requires |xs| > NonceAt(xs) && tail == xs[NonceAt(xs) + 1..]
    ensures var k, h := NonceAt(xs), HintAt(xs);
      forall name, sel, nonce ::
        DecodeTail02(name, sel, nonce, tail) ==
        if |xs| > h && xs[h].HintElement? && xs[h].hint == [] then Malformed
        else if |xs| == h || (|xs| == h + 1 && xs[h].HintElement?)
        then Decoded(Interest(name, sel, Some(nonce), if h == k + 2 then xs[k + 1].ms else 4000,
                              if |xs| > h then xs[h].hint else [], None))
        else Rejected
  {
    var k, h := NonceAt(xs), HintAt(xs);
    var ys := if tail != [] && tail[0].LifetimeElement? then tail[1..] else tail;
    assert ys == xs[h..];
  }

  predicate InOrderFrom(xs: seq<SelectorElement>, kind: nat) {
    && (forall i | 0 <= i < |xs| :: KindOf(xs[i]) >= kind)
    && forall i, j | 0 <= i < j < |xs| :: KindOf(xs[i]) < KindOf(xs[j])
  }

  lemma {:induction false} OneMoreInOrder(x: Option<SelectorElement>, rest: seq<SelectorElement>, kind: nat)
    requires InOrderFrom(rest, kind + 1) && (x.Some? ==> KindOf(x.value) == kind)
    ensures InOrderFrom(List(x) + rest, kind)
  {
  }

  /** Selectors are written in the order of their types, once each. */
  lemma {:induction false} SelectorsInOrder(s: Selectors)
    ensures InOrderFrom(EncodeSelectors(s), 0)
  {
    var r5 := List(EncodedFresh(s)) + [];
    OneMoreInOrder(EncodedFresh(s), [], 5);
    OneMoreInOrder(EncodedChild(s), r5, 4);
    OneMoreInOrder(EncodedExclude(s), List(EncodedChild(s)) + r5, 3);
    OneMoreInOrder(EncodedPublisher(s), LastSelectors(s), 2);
    OneMoreInOrder(EncodedMax(s), List(EncodedPublisher(s)) + LastSelectors(s), 1);
    OneMoreInOrder(EncodedMin(s), List(EncodedMax(s)) + (List(EncodedPublisher(s)) + LastSelectors(s)), 0);
  }

  /** The place of an element in a v0.3 packet; 0 for those that have none. */
  function Rank(x: PacketElement): nat {
    match x
    case NameElement(_) => 1
    case CanBePrefixElement(_) => 2
    case MustBeFreshElement(_) => 3
    case HintElement(_) => 4
    case NonceElement(_, _) => 5
    case LifetimeElement(_) => 6
    case HopLimitElement(_) => 7
    case ParametersElement(_) => 8
    case SelectorsElement(_) => 0
    case OtherElement(_) => 0
  }

  /** An element with an acceptable value; a late HopLimit is skipped unread. */
  predicate ValueOk(x: PacketElement, late: bool) {
    match x
    case NameElement(n) => n != []
    case CanBePrefixElement(size) => size == 0
    case MustBeFreshElement(size) => size == 0
    case HintElement(ds) => ds != []
    case NonceElement(_, size) => size == 4
    case LifetimeElement(_) => true
    case HopLimitElement(size) => late || size == 1
    case ParametersElement(_) => true
    case SelectorsElement(_) => false
    case OtherElement(t) => t > 31 && t % 2 == 0
  }

  /** Recognized elements in order and not repeated, except late HopLimits; acceptable values; nothing
      critical that is not recognized. `last` is the highest place before the list. */
  ghost predicate Form03(xs: seq<PacketElement>, last: nat) {
    forall j | 0 <= j < |xs| :: PlaceOk(xs, last, j)
  }

  ghost predicate Late(xs: seq<PacketElement>, last: nat, j: nat)
    requires j <= |xs|
  {
    last >= 7 || exists i :: 0 <= i < j && Rank(xs[i]) >= 7
  }

  ghost predicate PlaceOk(xs: seq<PacketElement>, last: nat, j: nat)
    requires j < |xs|
  {
    && ValueOk(xs[j], Late(xs, last, j))
    && (Rank(xs[j]) > 0 && !xs[j].HopLimitElement? ==>
          last < Rank(xs[j]) && forall i | 0 <= i < j :: Rank(xs[i]) < Rank(xs[j]))
  }

  function Higher(last: nat, x: PacketElement): nat { if Rank(x) > last then Rank(x) else last }

  lemma {:induction false} PlaceNext(xs: seq<PacketElement>, last: nat, j: nat)
    requires 0 < j < |xs|
    ensures PlaceOk(xs, last, j) <==> PlaceOk(xs[1..], Higher(last, xs[0]), j - 1)
  {
    var ys, higher := xs[1..], Higher(last, xs[0]);
    assert forall i | 0 <= i < |ys| :: ys[i] == xs[i + 1];
    assert Late(xs, last, j) <==> Late(ys, higher, j - 1) by {
      if i :| 0 <= i < j && Rank(xs[i]) >= 7 {
        assert i > 0 ==> Rank(ys[i - 1]) >= 7;
      }
      if i :| 0 <= i < j - 1 && Rank(ys[i]) >= 7 {
        assert Rank(xs[i + 1]) >= 7;
      }
    }
    if forall i | 0 <= i < j - 1 :: Rank(ys[i]) < Rank(ys[j - 1]) {
      assert forall i | 0 < i < j :: Rank(xs[i]) == Rank(ys[i - 1]);
    }
    if forall i | 0 <= i < j :: Rank(xs[i]) < Rank(xs[j]) {
      assert forall i | 0 <= i < j - 1 :: Rank(ys[i]) == Rank(xs[i + 1]);
    }
  }

  lemma {:induction false} FormNext(xs: seq<PacketElement>, last: nat)
    requires xs != []
    ensures Form03(xs, last) <==> PlaceOk(xs, last, 0) && Form03(xs[1..], Higher(last, xs[0]))
  {
    var ys, higher := xs[1..], Higher(last, xs[0]);
    if PlaceOk(xs, last, 0) && Form03(ys, higher) {
      forall j | 0 <= j < |xs| ensures PlaceOk(xs, last, j) {
        if j > 0 {
          assert PlaceOk(ys, higher, j - 1);
          PlaceNext(xs, last, j);
        }
      }
    }
    if Form03(xs, last) {
      forall j | 0 <= j < |ys| ensures PlaceOk(ys, higher, j) {
        assert PlaceOk(xs, last, j + 1);
        PlaceNext(xs, last, j + 1);
      }
    }
  }

  /** The v0.3 decoder accepts exactly the packets of that form; any other is malformed. */
  lemma {:induction false} Accepts03(st: Interest, last: nat, xs: seq<PacketElement>)
    ensures Decode03(st, last, xs).Decoded? <==> Form03(xs, last)
    ensures !Decode03(st, last, xs).Rejected?
    decreases xs
  {
    if xs != [] {
      FormNext(xs, last);
      var st' := DecodeNext(st, last, xs);
      Accepts03(st', Higher(last, xs[0]), xs[1..]);
    }
  }

  /** One turn of the loop. */
  lemma {:induction false} DecodeNext(st: Interest, last: nat, xs: seq<PacketElement>) returns (st': Interest)
    requires xs != []
    ensures if PlaceOk(xs, last, 0) then Decode03(st, last, xs) == Decode03(st', Higher(last, xs[0]), xs[1..])
            else Decode03(st, last, xs) == Malformed
  {
    assert Late(xs, last, 0) <==> last >= 7;
    st' := match xs[0]
      case NameElement(n) => st.(name := n)
      case CanBePrefixElement(_) => st.(selectors := st.selectors.(maxSuffix := -1))
      case MustBeFreshElement(_) => st.(selectors := st.selectors.(mustBeFresh := true))
      case HintElement(ds) => st.(hint := SortDelegations(ds))
      case NonceElement(v, _) => st.(nonce := Some(v))
      case LifetimeElement(ms) => st.(lifetime := ms)
      case ParametersElement(bytes) => st.(parameters := Some(bytes))
      case _ => st;
  }

  /** A packet is accepted in v0.2 form, or else if it has a name and v0.3 form. */
  lemma {:induction false} DecodeAccepts(xs: seq<PacketElement>, random: nat)
    ensures Decode(xs, random).Decoded? <==>
            Decode02(xs).Decoded? || (Decode02(xs).Rejected? && HasName(xs) && Form03(xs, 0))
  {
    Accepts03(START03, 0, xs);
  }
}
