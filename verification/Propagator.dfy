/** Automatic prefix propagation: a table of prefixes to register with the connected hub, kept in step
    with the RIB by its insert and erase signals. The key chain is fixed. */
module Propagator {
  import opened Options
  import opened Components
  import opened Names

  const LOCALHOST := Component(GENERIC_TYPE, [108, 111, 99, 97, 108, 104, 111, 115, 116])
  const LOCALHOP := Component(GENERIC_TYPE, [108, 111, 99, 97, 108, 104, 111, 112])
  const NFD := Component(GENERIC_TYPE, [110, 102, 100])
  const NRD := Component(GENERIC_TYPE, [110, 114, 100])

  const LOCAL_REGISTRATION_PREFIX: Name := [LOCALHOST]
  const LINK_LOCAL_NFD_PREFIX: Name := [LOCALHOP, NFD]
  const IGNORE_COMPONENT := NRD

  /** RIB entries that stand for themselves: not local, and not the hub's. */
  predicate IsPropagatable(n: Name) { !(LOCAL_REGISTRATION_PREFIX <= n) && n != LINK_LOCAL_NFD_PREFIX }

  // ---- Choosing the signing identity ----

  function Stripped(id: Name): Name {
    if id != [] && id[|id| - 1] == IGNORE_COMPONENT then id[..|id| - 1] else id
  }

  datatype Choice = Choice(prefix: Name, identity: Name)

  /** The identity with the shortest stripped prefix of `n`, the first one among equals. */
  function Best(ids: seq<Name>, n: Name): (c: Option<Choice>)
    ensures c.Some? ==> c.value.identity in ids && c.value.prefix == Stripped(c.value.identity) && c.value.prefix <= n
    ensures c.Some? ==> forall id | id in ids && Stripped(id) <= n :: |c.value.prefix| <= |Stripped(id)|
    ensures c.None? ==> forall id | id in ids :: !(Stripped(id) <= n)
  {
    if ids == [] then None
    else
      var k := |ids| - 1;
      var c := Best(ids[..k], n);
      var p := Stripped(ids[k]);
      assert ids == ids[..k] + [ids[k]];
      if p <= n && (c.None? || |p| < |c.value.prefix|) then Some(Choice(p, ids[k])) else c
  }

  lemma {:induction false} BestNext(ids: seq<Name>, n: Name, i: nat)
    requires i < |ids|
    ensures Best(ids[..i + 1], n) ==
      var c, p := Best(ids[..i], n), Stripped(ids[i]);
      if p <= n && (c.None? || |p| < |c.value.prefix|) then Some(Choice(p, ids[i])) else c
  {
    assert ids[..i + 1][..i] == ids[..i];
  }

  /** `getPrefixPropagationParameters`. */
  method GetPrefixPropagationParameters(ids: seq<Name>, n: Name) returns (c: Option<Choice>)
    ensures c == Best(ids, n)
  {
    c := None;
    for i := 0 to |ids|
      invariant c == Best(ids[..i], n)
    {
      BestNext(ids, n, i);
      var prefix := if ids[i] != [] && ids[i][|ids[i]| - 1] == IGNORE_COMPONENT then ids[i][..|ids[i]| - 1] else ids[i];
      if prefix <= n && (c.None? || |prefix| < |c.value.prefix|) {
        c := Some(Choice(prefix, ids[i]));
      }
    }
    assert ids[..|ids|] == ids;
  }

  /** The identity stands for the prefix: it is the prefix with a component "nrd" behind it, or it is the
      prefix and does not end in one. */
  predicate StandsFor(id: Name, p: Name) {
    var nrd := Component(8, [110, 114, 100]);
    id == p + [nrd] || (id == p && (p == [] || p[|p| - 1] != nrd))
  }

  lemma {:induction false} StrippedStandsFor(id: Name, p: Name)
    ensures StandsFor(id, p) <==> p == Stripped(id)
  {
    if id != [] {
      assert id == id[..|id| - 1] + [id[|id| - 1]];
    }
    assert (p + [IGNORE_COMPONENT])[..|p|] == p;
  }

  /** There is a choice exactly when some identity stands for a prefix of the name. */
  lemma {:induction false} ChoiceExists(ids: seq<Name>, n: Name)
    ensures Best(ids, n).Some? <==> exists id, p: Name :: id in ids && p <= n && StandsFor(id, p)
  {
    forall id, p ensures StandsFor(id, p) <==> p == Stripped(id) {
      StrippedStandsFor(id, p);
    }
    if Best(ids, n).Some? {
      var c := Best(ids, n).value;
      assert StandsFor(c.identity, c.prefix);
    }
  }

  /** The chosen identity stands for the chosen prefix, which is a prefix of the name; no identity stands
      for a shorter one, and none before it in the key chain for one as short. */
  lemma {:induction false} ChoiceIsFirstShortest(ids: seq<Name>, n: Name) returns (k: nat)
    requires Best(ids, n).Some?
    ensures var c := Best(ids, n).value;
      && k < |ids| && ids[k] == c.identity && StandsFor(c.identity, c.prefix) && c.prefix <= n
      && (forall j, p: Name | 0 <= j < |ids| && p <= n && StandsFor(ids[j], p) :: |c.prefix| <= |p|)
      && (forall j, p: Name | 0 <= j < k && p <= n && StandsFor(ids[j], p) :: |c.prefix| < |p|)
  {
    var m := |ids| - 1;
    var pre := ids[..m];
    var c := Best(ids, n).value;
    assert forall j | 0 <= j < m :: pre[j] == ids[j];
    StrippedStandsFor(c.identity, c.prefix);
    forall j, p: Name | 0 <= j < |ids| && p <= n && StandsFor(ids[j], p) ensures |c.prefix| <= |p| {
      StrippedStandsFor(ids[j], p);
      assert ids[j] in ids;
    }
    if Best(pre, n) == Some(c) {
      k := ChoiceIsFirstShortest(pre, n);
    } else {
      k := m;
      forall j, p: Name | 0 <= j < k && p <= n && StandsFor(ids[j], p) ensures |c.prefix| < |p| {
        StrippedStandsFor(ids[j], p);
        assert pre[j] in pre;
      }
    }
  }

  /** Two names below the chosen prefix of one of them get the same choice. */
  lemma {:induction false} SameChoice(ids: seq<Name>, n: Name, m: Name)
    requires Best(ids, n).Some? && Best(ids, n).value.prefix <= m
    ensures Best(ids, m) == Best(ids, n)
  {
    var k := |ids| - 1;
    var q := Best(ids, n).value.prefix;
    var p := Stripped(ids[k]);
    assert ids == ids[..k] + [ids[k]];
    var c := Best(ids[..k], n);
    if c.Some? && c.value.prefix == q {
      SameChoice(ids[..k], n, m);
      assert p <= m && |p| < |q| ==> p <= n;
    } else {
      assert p == q && ids[k] == Best(ids, n).value.identity;
      assert forall x: Name | x <= m && |x| <= |q| :: x <= q && x <= n;
    }
  }

  /** A chosen prefix is its own choice. */
  lemma {:induction false} ChosenWorks(ids: seq<Name>, n: Name)
    requires Best(ids, n).Some?
    ensures Best(ids, Best(ids, n).value.prefix) == Best(ids, n)
  {
    SameChoice(ids, n, Best(ids, n).value.prefix);
  }

  // ---- The table of propagated prefixes, as a set ----

  datatype State = State(names: set<Name>, keys: set<Name>)

  datatype Event = Inserted(name: Name) | Erased(name: Name)

  /** Some remaining RIB entry lies under the prefix and would be signed by the same identity. */
  predicate KeptByAnother(ids: seq<Name>, names: set<Name>, c: Choice) {
    exists r :: r in names && c.prefix <= r && Best(ids, r).Some? && Best(ids, r).value.identity == c.identity
  }

  function KeysAfter(ids: seq<Name>, s: State, e: Event): set<Name> {
    var c := Best(ids, e.name);
    if !IsPropagatable(e.name) || c.None? then s.keys
    else if e.Inserted? then s.keys + {c.value.prefix}
    else if c.value.prefix !in s.keys || KeptByAnother(ids, s.names - {e.name}, c.value) then s.keys
    else s.keys - {c.value.prefix}
  }

  lemma {:induction false} UnpropagatedKeep(ids: seq<Name>, s: State, e: Event)
    requires !IsPropagatable(e.name)
    ensures KeysAfter(ids, s, e) == s.keys
  {
  }

  function Next(ids: seq<Name>, s: State, e: Event): State {
    State(if e.Inserted? then s.names + {e.name} else s.names - {e.name}, KeysAfter(ids, s, e))
  }

  function RunAll(ids: seq<Name>, es: seq<Event>): State {
    if es == [] then State({}, {}) else Next(ids, RunAll(ids, es[..|es| - 1]), es[|es| - 1])
  }

  /** Prefixes that the propagatable RIB entries are propagated under. */
  function Image(ids: seq<Name>, names: set<Name>): set<Name> {
    set n | n in names && IsPropagatable(n) && Best(ids, n).Some? :: Best(ids, n).value.prefix
  }

  /** Prefixes that hold a propagatable name as well as one that is not. */
  predicate IsMixed(q: Name) { q == [] || q == [LOCALHOP] || q == LINK_LOCAL_NFD_PREFIX }

  predicate Safe(ids: seq<Name>) { forall id | id in ids :: !IsMixed(Stripped(id)) }

  lemma {:induction false} SameHead(q: Name, n: Name, r: Name)
    requires q <= n && q <= r && q != []
    ensures n != [] && r != [] && q[0] == n[0] == r[0]
    ensures LOCAL_REGISTRATION_PREFIX <= n <==> LOCAL_REGISTRATION_PREFIX <= r
  {
  }

  lemma {:induction false} MixedOrNot(q: Name, n: Name, r: Name)
    requires q <= n && q <= r && IsPropagatable(n) && !IsPropagatable(r)
    ensures IsMixed(q)
  {
    if q != [] {
      SameHead(q, n, r);
    }
    assert |q| == 1 ==> q == [q[0]];
  }

  /** One RIB event keeps the table equal to the image. */
  lemma {:induction false} StepFollows(ids: seq<Name>, s: State, e: Event)
    requires Safe(ids) && s.keys == Image(ids, s.names)
    ensures Next(ids, s, e).keys == Image(ids, Next(ids, s, e).names)
  {
    var t := Next(ids, s, e);
    var c := Best(ids, e.name);
    if !IsPropagatable(e.name) || c.None? {
      assert Image(ids, t.names) == Image(ids, s.names);
    } else if e.Inserted? {
      assert Image(ids, t.names) == Image(ids, s.names) + {c.value.prefix};
    } else {
      EraseFollows(ids, s, e.name);
    }
  }

  lemma {:induction false} EraseFollows(ids: seq<Name>, s: State, n: Name)
    requires Safe(ids) && s.keys == Image(ids, s.names) && IsPropagatable(n) && Best(ids, n).Some?
    ensures KeysAfter(ids, s, Erased(n)) == Image(ids, s.names - {n})
  {
    var c := Best(ids, n).value;
    var q, rest := c.prefix, s.names - {n};
    forall p | p != q ensures p in Image(ids, rest) <==> p in Image(ids, s.names) {}
    StillNeeded(ids, rest, n);
    assert Image(ids, rest) <= Image(ids, s.names);
  }

  /** Another entry keeps the prefix alive exactly when the prefix is still in the image. */
  lemma {:induction false} StillNeeded(ids: seq<Name>, rest: set<Name>, n: Name)
    requires Safe(ids) && IsPropagatable(n) && Best(ids, n).Some?
    ensures KeptByAnother(ids, rest, Best(ids, n).value) <==> Best(ids, n).value.prefix in Image(ids, rest)
  {
    var c := Best(ids, n).value;
    if r :| r in rest && c.prefix <= r && Best(ids, r).Some? && Best(ids, r).value.identity == c.identity {
      SameChoice(ids, n, r);
      if !IsPropagatable(r) {
        MixedOrNot(c.prefix, n, r);
        assert false;
      }
    }
    if r :| r in rest && IsPropagatable(r) && Best(ids, r).Some? && Best(ids, r).value.prefix == c.prefix {
      SameChoice(ids, n, r);
      assert KeptByAnother(ids, rest, c);
    }
  }

  lemma {:induction false} RunFollows(ids: seq<Name>, es: seq<Event>)
    requires Safe(ids)
    ensures RunAll(ids, es).keys == Image(ids, RunAll(ids, es).names)
  {
    if es != [] {
      RunFollows(ids, es[..|es| - 1]);
      StepFollows(ids, RunAll(ids, es[..|es| - 1]), es[|es| - 1]);
    }
  }

  // ---- Without the side condition ----

  const OTHER := Component(GENERIC_TYPE, [97])

  /** The shortest mixed prefix of the key chain. */
  lemma {:induction false} ShortestMixed(ids: seq<Name>, len: nat) returns (id: Name)
    requires exists x :: x in ids && IsMixed(Stripped(x)) && |Stripped(x)| <= len
    ensures id in ids && IsMixed(Stripped(id))
    ensures forall x | x in ids && IsMixed(Stripped(x)) :: |Stripped(id)| <= |Stripped(x)|
    decreases len
  {
    id :| id in ids && IsMixed(Stripped(id)) && |Stripped(id)| <= len;
    if x :| x in ids && IsMixed(Stripped(x)) && |Stripped(x)| < |Stripped(id)| {
      id := ShortestMixed(ids, |Stripped(id)| - 1);
    }
  }

  /** A key chain with a mixed prefix has a run of three events after which a prefix stays in the table
      that no propagatable RIB entry needs. */
  lemma {:induction false} MixedPrefixLingers(ids: seq<Name>) returns (es: seq<Event>)
    requires !Safe(ids)
    ensures RunAll(ids, es).keys != Image(ids, RunAll(ids, es).names)
  {
    var x :| x in ids && IsMixed(Stripped(x));
    var id := ShortestMixed(ids, |Stripped(x)|);
    var q := Stripped(id);
    var n, r := Witnesses(q);
    var c := Best(ids, n).value;
    assert c.prefix == q by { ShorterIsMixed(q, c.prefix); }
    SameChoice(ids, n, r);
    es := LingeringRun(ids, n, r);
  }

  /** Below a mixed prefix: a name that is propagated and one that is not. */
  lemma {:induction false} Witnesses(q: Name) returns (n: Name, r: Name)
    requires IsMixed(q)
    ensures n == q + [OTHER] && q <= r && n != r && IsPropagatable(n) && !IsPropagatable(r)
  {
    n := q + [OTHER];
    assert |OTHER.value| == 1 && |NFD.value| == 3 && |LOCALHOP.value| == 8 && |LOCALHOST.value| == 9;
    if q == [] {
      r := LOCAL_REGISTRATION_PREFIX;
      assert n[0] == OTHER && r[0] == LOCALHOST;
    } else {
      r := LINK_LOCAL_NFD_PREFIX;
      assert n[0] == LOCALHOP;
      assert |q| == 1 ==> n[1] == OTHER && r[1] == NFD;
    }
  }

  lemma {:induction false} LingeringRun(ids: seq<Name>, n: Name, r: Name) returns (es: seq<Event>)
    requires IsPropagatable(n) && !IsPropagatable(r) && n != r
    requires Best(ids, n).Some? && Best(ids, n).value.prefix <= r && Best(ids, r) == Best(ids, n)
    ensures RunAll(ids, es).keys != Image(ids, RunAll(ids, es).names)
  {
    var c := Best(ids, n).value;
    es := [Inserted(n), Inserted(r), Erased(n)];
    var s1 := RunAll(ids, es[..1]);
    var s2 := RunAll(ids, es[..2]);
    assert es[..2][..1] == es[..1] && es[..1][..0] == [] && es[..1][0] == Inserted(n);
    assert RunAll(ids, []) == State({}, {});
    assert s1 == Next(ids, RunAll(ids, es[..1][..0]), Inserted(n));
    assert s1 == State({n}, {c.prefix});
    assert s2 == State({n, r}, {c.prefix});
    assert s2.names - {n} == {r};
    assert KeptByAnother(ids, {r}, c);
    assert Image(ids, {r}) == {};
  }

  lemma {:induction false} ShorterIsMixed(q: Name, p: Name)
    requires IsMixed(q) && p <= q + [OTHER] && |p| <= |q|
    ensures IsMixed(p)
  {
    assert p <= q;
    if |p| == 1 {
      assert p == [q[0]];
    }
  }

  /** For a fixed key chain, the table follows the RIB in every run if and only if no stripped identity
      is "/", "/localhop" or "/localhop/nfd". */
  lemma {:induction false} TableFollowsRib(ids: seq<Name>)
    ensures Safe(ids) <==> forall es :: RunAll(ids, es).keys == Image(ids, RunAll(ids, es).names)
  {
    if Safe(ids) {
      forall es { RunFollows(ids, es); }
    } else {
      var es := MixedPrefixLingers(ids);
    }
  }

  // ---- The same, said of the run itself ----

  predicate LastInserted(es: seq<Event>, n: Name, k: nat) {
    k < |es| && es[k] == Inserted(n) && forall j | k < j < |es| :: es[j] != Erased(n)
  }

  /** The name was inserted and not erased since. */
  ghost predicate Present(es: seq<Event>, n: Name) { exists k: nat :: LastInserted(es, n, k) }

  lemma {:induction false} NamesArePresent(ids: seq<Name>, es: seq<Event>, n: Name)
    ensures n in RunAll(ids, es).names <==> Present(es, n)
  {
    if es != [] {
      var m := |es| - 1;
      var pre := es[..m];
      NamesArePresent(ids, pre, n);
      if k: nat :| LastInserted(pre, n, k) && es[m] != Erased(n) {
        assert LastInserted(es, n, k);
      }
      if es[m] == Inserted(n) {
        assert LastInserted(es, n, m);
      }
      if k: nat :| LastInserted(es, n, k) && k < m {
        assert es[m] != Erased(n) && LastInserted(pre, n, k);
      }
    }
  }

  /** A name outside "/localhost", other than "/localhop/nfd", whose choice is the prefix. */
  predicate PropagatedAs(ids: seq<Name>, n: Name, q: Name) {
    var localhost := Component(8, [108, 111, 99, 97, 108, 104, 111, 115, 116]);
    var localhop := Component(8, [108, 111, 99, 97, 108, 104, 111, 112]);
    && !([localhost] <= n) && n != [localhop, Component(8, [110, 102, 100])]
    && Best(ids, n).Some? && Best(ids, n).value.prefix == q
  }

  /** No identity stands for "/", "/localhop" or "/localhop/nfd". */
  ghost predicate NoMixedIdentity(ids: seq<Name>) {
    var localhop := Component(8, [108, 111, 99, 97, 108, 104, 111, 112]);
    forall id, p: Name | id in ids && StandsFor(id, p) ::
      p != [] && p != [localhop] && p != [localhop, Component(8, [110, 102, 100])]
  }

  /** For such a key chain, a prefix is in the table after any run exactly when some name that was inserted
      and not erased since is propagated as it. */
  lemma {:induction false} KeyMeansPresent(ids: seq<Name>, es: seq<Event>, q: Name)
    requires NoMixedIdentity(ids)
    ensures q in RunAll(ids, es).keys <==> exists n :: Present(es, n) && PropagatedAs(ids, n, q)
  {
    forall id | id in ids ensures !IsMixed(Stripped(id)) {
      StrippedStandsFor(id, Stripped(id));
    }
    RunFollows(ids, es);
    forall n ensures n in RunAll(ids, es).names <==> Present(es, n) {
      NamesArePresent(ids, es, n);
    }
    if q in RunAll(ids, es).keys {
      var n :| n in RunAll(ids, es).names && IsPropagatable(n) && Best(ids, n).Some? && Best(ids, n).value.prefix == q;
      assert Present(es, n) && PropagatedAs(ids, n, q);
    }
  }

  // ---- The propagator object ----

  datatype Status = NEW | PROPAGATING | PROPAGATED | PROPAGATE_FAIL

  datatype PropagatedEntry = PropagatedEntry(signingIdentity: Name, status: Status)

  /** What is sent to the hub for a prefix: a registration or an unregistration. */
  datatype Command = Advertise(prefix: Name, identity: Name) | Withdraw(prefix: Name, identity: Name)

  /** The registrations for the listed prefixes, in that order. */
  function Advertisements(m: map<Name, PropagatedEntry>, order: seq<Name>): seq<Command>
    requires forall q | q in order :: q in m
  {
    seq(|order|, i requires 0 <= i < |order| => Advertise(order[i], m[order[i]].signingIdentity))
  }

  function Listed(order: seq<Name>): set<Name> { set q | q in order }

  /** The propagations in `done` have been redone, the others are as before. */
  ghost predicate Redone(m: map<Name, PropagatedEntry>, m': map<Name, PropagatedEntry>, done: set<Name>) {
    m'.Keys == m.Keys && forall q | q in m :: m'[q] == if q in done then m[q].(status := PROPAGATING) else m[q]
  }

  lemma {:induction false} TakeOneMore(order: seq<Name>, i: nat)
    requires i < |order|
    ensures order[..i + 1] == order[..i] + [order[i]]
  {
  }

  /** Every prefix is back to NEW. */
  ghost predicate AllReset(m: map<Name, PropagatedEntry>, m': map<Name, PropagatedEntry>) {
    m'.Keys == m.Keys && forall q | q in m :: m'[q] == m[q].(status := NEW)
  }

  /** Old prefixes are as before, a new one starts out according to whether a hub is connected. */
  ghost predicate OnlyNewAdded(m: map<Name, PropagatedEntry>, m': map<Name, PropagatedEntry>, hub: bool) {
    && (forall q | q in m :: q in m' && m'[q] == m[q])
    && (forall q | q in m' && q !in m :: m'[q].status == if hub then PROPAGATING else NEW)
  }

  ghost predicate OnlyDropped(m: map<Name, PropagatedEntry>, m': map<Name, PropagatedEntry>) {
    forall q | q in m' :: q in m && m'[q] == m[q]
  }

  /** Only the status of `q` changes, if it is in the table at all. */
  ghost predicate StatusSet(m: map<Name, PropagatedEntry>, m': map<Name, PropagatedEntry>, q: Name, status: Status) {
    m'.Keys == m.Keys && forall p | p in m :: m'[p] == if p == q then m[p].(status := status) else m[p]
  }

  lemma {:induction false} SentOneMore(before: seq<Command>, all: seq<Command>, i: nat)
    requires i < |all|
    ensures before + all[..i + 1] == before + all[..i] + [all[i]]
  {
  }

  lemma {:induction false} HubIsNotLocal()
    ensures !(LOCAL_REGISTRATION_PREFIX <= LINK_LOCAL_NFD_PREFIX)
  {
    assert LOCALHOST.value != LOCALHOP.value by {
      assert |LOCALHOST.value| == 9 && |LOCALHOP.value| == 8;
    }
    assert LOCAL_REGISTRATION_PREFIX[0] != LINK_LOCAL_NFD_PREFIX[0];
  }

  lemma {:induction false} RedoNext(m: map<Name, PropagatedEntry>, m': map<Name, PropagatedEntry>, done: seq<Name>,
      q: Name)
    requires Redone(m, m', Listed(done)) && q in m
    ensures Redone(m, m'[q := m'[q].(status := PROPAGATING)], Listed(done + [q]))
  {
  }

  class AutoPrefixPropagator {
    const ids: seq<Name>
    var entries: map<Name, PropagatedEntry>
    var hasConnectedHub: bool
    var sent: seq<Command>

    constructor (ids: seq<Name>)
      ensures Valid() && this.ids == ids && entries == map[] && !hasConnectedHub && sent == []
    {
      this.ids := ids;
      entries, hasConnectedHub, sent := map[], false, [];
    }

    /** Every prefix in the table is chosen for itself and signed by its chosen identity. */
    ghost predicate Valid()
      reads this
    {
      forall q | q in entries :: Best(ids, q) == Some(Choice(q, entries[q].signingIdentity))
    }

    method DoesCurrentPropagatedPrefixWork(q: Name) returns (b: bool)
      ensures b == (Best(ids, q).Some? && |Best(ids, q).value.prefix| == |q|)
    {
      var c := GetPrefixPropagationParameters(ids, q);
      b := c.Some? && |c.value.prefix| == |q|;
    }

    /** `redoPropagation`, from the refresh and retry timers and when a hub connects. With a fixed key
        chain a prefix in the table always still works. */
    method RedoPropagation(q: Name)
      requires Valid() && q in entries
      modifies `entries, `sent
      ensures Valid() && entries == old(entries)[q := old(entries)[q].(status := PROPAGATING)]
      ensures sent == old(sent) + [Advertise(q, old(entries)[q].signingIdentity)]
    {
      var works := DoesCurrentPropagatedPrefixWork(q);
      if works {
        sent := sent + [Advertise(q, entries[q].signingIdentity)];
        entries := entries[q := entries[q].(status := PROPAGATING)];
      } else {
        assert false;
      }
    }

    /** `afterHubConnect`: the listed propagations are redone, and no prefix is dropped. */
    method AfterHubConnect(order: seq<Name>)
      requires Valid() && forall q | q in order :: q in entries
      modifies `entries, `sent
      ensures Valid() && Redone(old(entries), entries, Listed(order))
      ensures sent == old(sent) + Advertisements(old(entries), order)
      ensures |sent| == |old(sent)| + |order| && forall i | 0 <= i < |order| ::
        sent[|old(sent)| + i] == Advertise(order[i], old(entries)[order[i]].signingIdentity)
    {
      ghost var m, before := entries, sent;
      ghost var all := Advertisements(m, order);
      assert Redone(m, entries, Listed(order[..0])) && before + all[..0] == before;
      for i := 0 to |order|
        invariant Valid() && Redone(m, entries, Listed(order[..i])) && sent == before + all[..i]
      {
        var q := order[i];
        assert q in order;
        TakeOneMore(order, i);
        SentOneMore(before, all, i);
        RedoNext(m, entries, order[..i], q);
        RedoPropagation(q);
      }
      assert order[..|order|] == order && all[..|order|] == all;
    }

    /** `afterHubDisconnect`. */
    method AfterHubDisconnect()
      requires Valid()
      modifies `entries
      ensures Valid() && AllReset(old(entries), entries)
    {
      entries := map q | q in entries :: entries[q].(status := NEW);
    }

    /** `afterInsertRibEntry`; `order` lists the prefixes in the table. A new prefix is advertised at
        once if a hub is connected; a hub's own prefix advertises all. */
    method AfterInsertRibEntry(n: Name, order: seq<Name>, ghost names: set<Name>)
      requires Valid() && forall q :: q in order <==> q in entries
      modifies this
      ensures Valid() && entries.Keys == KeysAfter(ids, State(names, old(entries.Keys)), Inserted(n))
      ensures hasConnectedHub == (old(hasConnectedHub) || n == LINK_LOCAL_NFD_PREFIX)
      ensures if n == LINK_LOCAL_NFD_PREFIX then Redone(old(entries), entries, Listed(order))
              else OnlyNewAdded(old(entries), entries, hasConnectedHub)
      ensures var c := Best(ids, n);
        sent == old(sent) +
          if n == LINK_LOCAL_NFD_PREFIX then Advertisements(old(entries), order)
          else if hasConnectedHub && c.Some? && c.value.prefix in entries && c.value.prefix !in old(entries)
          then [Advertise(c.value.prefix, c.value.identity)] else []
    {
      HubIsNotLocal();
      if LOCAL_REGISTRATION_PREFIX <= n {
        return;
      }
      if n == LINK_LOCAL_NFD_PREFIX {
        hasConnectedHub := true;
        AfterHubConnect(order);
        return;
      }
      var c := GetPrefixPropagationParameters(ids, n);
      if c.None? || c.value.prefix in entries {
        return;
      }
      AfterRibInsert(n, c.value);
    }

    /** `afterRibInsert`. */
    method AfterRibInsert(n: Name, c: Choice)
      requires Valid() && Best(ids, n) == Some(c) && c.prefix !in entries
      modifies `entries, `sent
      ensures Valid() && entries.Keys == old(entries.Keys) + {c.prefix}
      ensures OnlyNewAdded(old(entries), entries, hasConnectedHub)
      ensures sent == old(sent) + if hasConnectedHub then [Advertise(c.prefix, c.identity)] else []
    {
      ChosenWorks(ids, n);
      if hasConnectedHub {
        entries := entries[c.prefix := PropagatedEntry(c.identity, PROPAGATING)];
        sent := sent + [Advertise(c.prefix, c.identity)];
      } else {
        entries := entries[c.prefix := PropagatedEntry(c.identity, NEW)];
      }
    }

    /** `afterEraseRibEntry`; `ribNames` lists the names still in the RIB. A dropped prefix is withdrawn
        if its propagation had succeeded and a hub is connected. */
    method AfterEraseRibEntry(n: Name, ribNames: seq<Name>, ghost names: set<Name>)
      requires Valid() && forall m :: m in ribNames <==> m in names - {n}
      modifies this
      ensures Valid() && entries.Keys == KeysAfter(ids, State(names, old(entries.Keys)), Erased(n))
      ensures hasConnectedHub == (old(hasConnectedHub) && n != LINK_LOCAL_NFD_PREFIX)
      ensures if n == LINK_LOCAL_NFD_PREFIX then AllReset(old(entries), entries) else OnlyDropped(old(entries), entries)
      ensures var c := Best(ids, n);
        sent == old(sent) +
          if hasConnectedHub && c.Some? && c.value.prefix in old(entries) && c.value.prefix !in entries
             && old(entries)[c.value.prefix].status == PROPAGATED
          then [Withdraw(c.value.prefix, c.value.identity)] else []
    {
      HubIsNotLocal();
      if LOCAL_REGISTRATION_PREFIX <= n {
        return;
      }
      if n == LINK_LOCAL_NFD_PREFIX {
        hasConnectedHub := false;
        AfterHubDisconnect();
        UnpropagatedKeep(ids, State(names, entries.Keys), Erased(n));
        assert entries.Keys == old(entries.Keys);
        return;
      }
      EraseNamed(n, ribNames, names);
    }

    /** The rest of `afterEraseRibEntry`, for a name that may be propagated. */
    method EraseNamed(n: Name, ribNames: seq<Name>, ghost names: set<Name>)
      requires Valid() && IsPropagatable(n) && forall m :: m in ribNames <==> m in names - {n}
      modifies `entries, `sent
      ensures Valid() && entries.Keys == KeysAfter(ids, State(names, old(entries.Keys)), Erased(n))
      ensures OnlyDropped(old(entries), entries)
      ensures var c := Best(ids, n);
        sent == old(sent) +
          if hasConnectedHub && c.Some? && c.value.prefix in old(entries) && c.value.prefix !in entries
             && old(entries)[c.value.prefix].status == PROPAGATED
          then [Withdraw(c.value.prefix, c.value.identity)] else []
    {
      var c := GetPrefixPropagationParameters(ids, n);
      if c.None? || c.value.prefix !in entries {
        return;
      }
      var kept := IsKept(ids, ribNames, c.value);
      assert kept == KeptByAnother(ids, names - {n}, c.value);
      if !kept {
        AfterRibErase(n, c.value);
      }
    }

    /** `afterRibErase`. */
    method AfterRibErase(n: Name, c: Choice)
      requires Valid() && Best(ids, n) == Some(c) && c.prefix in entries
      modifies `entries, `sent
      ensures Valid() && entries == old(entries) - {c.prefix}
      ensures sent == old(sent) + if hasConnectedHub && old(entries)[c.prefix].status == PROPAGATED
                                  then [Withdraw(c.prefix, c.identity)] else []
    {
      if hasConnectedHub && entries[c.prefix].status == PROPAGATED {
        sent := sent + [Withdraw(c.prefix, c.identity)];
      }
      entries := entries - {c.prefix};
    }

    /** The search for another RIB entry that needs the prefix. */
    static method IsKept(ids: seq<Name>, ribNames: seq<Name>, c: Choice) returns (b: bool)
      ensures b <==>
        exists r :: r in ribNames && c.prefix <= r && Best(ids, r).Some? && Best(ids, r).value.identity == c.identity
    {
      for i := 0 to |ribNames|
        invariant forall r | r in ribNames[..i] ::
          !(c.prefix <= r && Best(ids, r).Some? && Best(ids, r).value.identity == c.identity)
      {
        assert ribNames[..i + 1] == ribNames[..i] + [ribNames[i]];
        var d := GetPrefixPropagationParameters(ids, ribNames[i]);
        if c.prefix <= ribNames[i] && d.Some? && d.value.identity == c.identity {
          return true;
        }
      }
      assert ribNames[..|ribNames|] == ribNames;
      return false;
    }

    /** `afterPropagateSucceed`: a prefix dropped in the meantime is withdrawn again. */
    method AfterPropagateSucceed(q: Name, identity: Name)
      requires Valid()
      modifies `entries, `sent
      ensures Valid() && StatusSet(old(entries), entries, q, PROPAGATED)
      ensures sent == old(sent) + if q in old(entries) then [] else [Withdraw(q, identity)]
    {
      if q !in entries {
        sent := sent + [Withdraw(q, identity)];
      } else {
        entries := entries[q := entries[q].(status := PROPAGATED)];
      }
    }

    /** `afterPropagateFail`: nothing is sent until the retry timer fires. */
    method AfterPropagateFail(q: Name)
      requires Valid()
      modifies `entries
      ensures Valid() && StatusSet(old(entries), entries, q, PROPAGATE_FAIL)
    {
      if q in entries {
        entries := entries[q := entries[q].(status := PROPAGATE_FAIL)];
      }
    }

    /** `afterRevokeSucceed`: a prefix that came back in the meantime is advertised again, unless its own
        propagation has failed and a retry is due. */
    method AfterRevokeSucceed(q: Name, identity: Name)
      requires Valid()
      modifies `entries, `sent
      ensures Valid()
      ensures var again := q in old(entries) && old(entries)[q].status != PROPAGATE_FAIL;
        && (if again then StatusSet(old(entries), entries, q, PROPAGATING) else entries == old(entries))
        && sent == old(sent) + if again then [Advertise(q, identity)] else []
    {
      if q in entries && entries[q].status != PROPAGATE_FAIL {
        entries := entries[q := entries[q].(status := PROPAGATING)];
        sent := sent + [Advertise(q, identity)];
      }
    }
  }
}
