/** How the updater sends its FIB updates: all updates for the batch face first, then the others,
    each answered asynchronously by the forwarder in any order, with retries on timeout.

    `Respond` is one answer to one command in flight. `Inv` holds in every state reached by answers
    among which no batch-face update is refused with code 410. */
module SendProtocol {
  import opened Options
  import opened Names
  import opened RibSpec
  import opened Seqs
  import opened FibUpdaters
  import opened RibUpdates

  /** A command on its way to the forwarder: an update, whether it was sent as an addition, and how
      often it has timed out before. */
  datatype Command = Command(update: FibUpdate, asAdd: bool, nTimeouts: nat)

  /** The forwarder's answer. After a timeout the command may or may not have been carried out. */
  datatype Answer = Success | Timeout(applied: bool) | FaceNotFound | OtherError

  const MAX_NUM_TIMEOUTS: nat := 10

  /** `log`, `timedOut` and `dropped` record what was sent, what timed out, and what was given up. */
  datatype Sender = Sender(face: Face, batch: seq<FibUpdate>, nonBatch: seq<FibUpdate>,
                           inFlight: seq<Command>, fib: Fib, nSuccess: nat, nFailure: nat, halted: bool,
                           log: seq<Command>, timedOut: set<FibUpdate>, dropped: set<FibUpdate>)

  // ---- The protocol ----

  function Commands(us: seq<FibUpdate>): seq<Command> {
    seq(|us|, i requires 0 <= i < |us| => Command(us[i], us[i].action == ADD_NEXTHOP, 0))
  }

  function SendUpdates(s: Sender, us: seq<FibUpdate>): Sender {
    s.(inFlight := s.inFlight + Commands(us), log := s.log + Commands(us))
  }

  function SendUpdatesForNonBatchFaceId(s: Sender): Sender {
    if s.nonBatch != [] then SendUpdates(s, s.nonBatch) else s.(nSuccess := s.nSuccess + 1)
  }

  function SendUpdatesForBatchFaceId(s: Sender): Sender {
    if s.batch != [] then SendUpdates(s, s.batch) else SendUpdatesForNonBatchFaceId(s)
  }

  function FinishNonBatch(s: Sender, u: FibUpdate): Sender {
    var s' := s.(nonBatch := Removed(s.nonBatch, u));
    if s'.nonBatch == [] then s'.(nSuccess := s'.nSuccess + 1) else s'
  }

  function OnUpdateSuccess(s: Sender, u: FibUpdate): Sender {
    if u.face == s.face then
      var s' := s.(batch := Removed(s.batch, u));
      if s'.batch == [] then SendUpdatesForNonBatchFaceId(s') else s'
    else FinishNonBatch(s, u)
  }

  /** A retry is always sent as an addition. */
  function Retry(s: Sender, u: FibUpdate, nTimeouts: nat): Sender {
    var c := Command(u, true, nTimeouts + 1);
    s.(inFlight := s.inFlight + [c], log := s.log + [c], timedOut := s.timedOut + {u})
  }

  function OnUpdateError(s: Sender, u: FibUpdate, answer: Answer, nTimeouts: nat): Sender {
    if answer.Timeout? && nTimeouts < MAX_NUM_TIMEOUTS then Retry(s, u, nTimeouts)
    else if answer.FaceNotFound? then
      if u.face == s.face then s.(nFailure := s.nFailure + 1)
      else FinishNonBatch(s.(dropped := s.dropped + {u}), u)
    else s.(halted := true)
  }

  /** What the forwarder does with a command. */
  function Perform(fib: Fib, c: Command): Fib {
    var key := (c.update.name, c.update.face);
    if c.asAdd then fib[key := c.update.cost] else fib - {key}
  }

  function Taken(s: Sender, i: nat, answer: Answer): Sender
    requires i < |s.inFlight|
  {
    var c := s.inFlight[i];
    s.(inFlight := s.inFlight[..i] + s.inFlight[i + 1..],
       fib := if answer.Success? || (answer.Timeout? && answer.applied) then Perform(s.fib, c) else s.fib)
  }

  /** The answer to the command at position `i` among those in flight. */
  function Respond(s: Sender, i: nat, answer: Answer): Sender
    requires i < |s.inFlight|
  {
    var c, s' := s.inFlight[i], Taken(s, i, answer);
    if answer.Success? then OnUpdateSuccess(s', c.update) else OnUpdateError(s', c.update, answer, c.nTimeouts)
  }

  function Start(q: Lists, fib: Fib): Sender {
    SendUpdatesForBatchFaceId(Sender(q.face, q.batch, q.nonBatch, [], fib, 0, 0, false, [], {}, {}))
  }

  // ---- The invariant ----

  function Updates(cs: seq<Command>): seq<FibUpdate> { seq(|cs|, i requires 0 <= i < |cs| => cs[i].update) }

  /** The list being worked on. */
  function Current(s: Sender): seq<FibUpdate> { if s.batch != [] then s.batch else s.nonBatch }

  /** How often `u` was sent. */
  function TimesSent(log: seq<Command>, u: FibUpdate): nat {
    if log == [] then 0 else TimesSent(log[..|log| - 1], u) + (if log[|log| - 1].update == u then 1 else 0)
  }

  /** What remains is part of what was computed; the second list is untouched during the first phase. */
  predicate ListsInv(s: Sender, q: Lists) {
    && s.face == q.face && UniqueKeys(q.batch) && UniqueKeys(q.nonBatch)
    && (forall u | u in q.batch :: u.face == q.face) && (forall u | u in q.nonBatch :: u.face != q.face)
    && Distinct(s.batch) && Distinct(s.nonBatch)
    && (forall u | u in s.batch :: u in q.batch) && (forall u | u in s.nonBatch :: u in q.nonBatch)
    && (s.batch != [] ==> s.nonBatch == q.nonBatch)
  }

  /** The commands in flight are one for each update of the current list. */
  ghost predicate FlightInv(s: Sender) {
    Distinct(Updates(s.inFlight)) && forall u :: u in Updates(s.inFlight) <==> u in Current(s)
  }

  predicate CommandOk(s: Sender, c: Command) {
    && c.nTimeouts <= MAX_NUM_TIMEOUTS
    && (c.nTimeouts > 0 <==> c.update in s.timedOut)
    && (c.asAdd <==> c.update.action == ADD_NEXTHOP || c.nTimeouts > 0)
    && TimesSent(s.log, c.update) == c.nTimeouts + 1
  }

  /** No update is sent more than eleven times, and none for another face before the batch is done. */
  ghost predicate LogInv(s: Sender) {
    && (forall c | c in s.inFlight :: CommandOk(s, c))
    && (forall u :: TimesSent(s.log, u) <= 11)
    && (s.batch != [] ==> forall u: FibUpdate | u.face != s.face :: TimesSent(s.log, u) == 0 && u !in s.timedOut)
  }

  /** Success is reported once, exactly when both lists are empty; failure is never reported. */
  predicate ReportInv(s: Sender) {
    s.nFailure == 0 && s.nSuccess == (if s.batch == [] && s.nonBatch == [] then 1 else 0)
  }

  /** What an acknowledged update leaves at its name and face. */
  function Settled(s: Sender, u: FibUpdate): Option<nat> {
    if u.action == ADD_NEXTHOP || u in s.timedOut then Some(u.cost) else None
  }

  ghost predicate FibInv(s: Sender, q: Lists, fib: Fib) {
    && (forall n, f | Listed(q.batch, n, f).None? && Listed(q.nonBatch, n, f).None? ::
          Look(s.fib, n, f) == Look(fib, n, f))
    && (forall u | (u in q.batch || u in q.nonBatch) && u !in s.batch && u !in s.nonBatch && u !in s.dropped ::
          Look(s.fib, u.name, u.face) == Settled(s, u))
  }

  ghost predicate Inv(s: Sender, q: Lists, fib: Fib) {
    ListsInv(s, q) && FlightInv(s) && LogInv(s) && ReportInv(s) && FibInv(s, q, fib)
  }

  // ---- Counting ----

  lemma {:induction false} TimesSentAppend(log: seq<Command>, c: Command, u: FibUpdate)
    ensures TimesSent(log + [c], u) == TimesSent(log, u) + if c.update == u then 1 else 0
  {
    assert (log + [c])[..|log|] == log;
  }

  lemma {:induction false} TimesSentSplit(log: seq<Command>, cs: seq<Command>, u: FibUpdate)
    ensures TimesSent(log + cs, u) == TimesSent(log, u) + TimesSent(cs, u)
  {
    if cs == [] {
      assert log + cs == log;
    } else {
      assert (log + cs)[..|log + cs| - 1] == log + cs[..|cs| - 1];
      TimesSentSplit(log, cs[..|cs| - 1], u);
    }
  }

  lemma {:induction false} TimesSentCommands(us: seq<FibUpdate>, u: FibUpdate)
    requires Distinct(us)
    ensures TimesSent(Commands(us), u) == if u in us then 1 else 0
  {
    if us != [] {
      var k := |us| - 1;
      assert Commands(us)[..k] == Commands(us[..k]);
      TimesSentCommands(us[..k], u);
      assert u in us <==> u in us[..k] || u == us[k];
    }
  }

  lemma {:induction false} UpdateInFlight(cs: seq<Command>, c: Command)
    requires c in cs
    ensures c.update in Updates(cs)
  {
    var i :| 0 <= i < |cs| && cs[i] == c;
    assert Updates(cs)[i] == c.update;
  }

  // ---- Starting a list ----

  /** A list whose updates were never sent is put in flight. */
  lemma {:induction false} SendingOk(s: Sender, us: seq<FibUpdate>)
    requires s.inFlight == [] && Distinct(us)
    requires forall u | u in us :: TimesSent(s.log, u) == 0 && u !in s.timedOut
    requires forall u :: TimesSent(s.log, u) <= MAX_NUM_TIMEOUTS + 1
    ensures var t := SendUpdates(s, us);
      && Updates(t.inFlight) == us
      && (forall c | c in t.inFlight :: CommandOk(t, c))
      && (forall u :: TimesSent(t.log, u) <= MAX_NUM_TIMEOUTS + 1)
      && (forall u | u !in us :: TimesSent(t.log, u) == TimesSent(s.log, u))
  {
    var t := SendUpdates(s, us);
    assert t.inFlight == Commands(us);
    SentOnceMore(s.log, us);
    forall c | c in t.inFlight ensures CommandOk(t, c) {
      var j :| 0 <= j < |us| && Commands(us)[j] == c;
      assert c.update in us;
    }
  }

  lemma {:induction false} SentOnceMore(log: seq<Command>, us: seq<FibUpdate>)
    requires Distinct(us)
    ensures forall u :: TimesSent(log + Commands(us), u) == TimesSent(log, u) + if u in us then 1 else 0
  {
    forall u ensures TimesSent(log + Commands(us), u) == TimesSent(log, u) + if u in us then 1 else 0 {
      TimesSentSplit(log, Commands(us), u);
      TimesSentCommands(us, u);
    }
  }

  lemma {:induction false} UniqueIsDistinct(us: seq<FibUpdate>)
    requires UniqueKeys(us)
    ensures Distinct(us)
  {
  }

  /** The invariant holds when a batch starts. */
  lemma {:induction false} StartOk(q: Lists, fib: Fib)
    requires ListsOk(q)
    ensures Inv(Start(q, fib), q, fib)
  {
    var s := Sender(q.face, q.batch, q.nonBatch, [], fib, 0, 0, false, [], {}, {});
    UniqueIsDistinct(q.batch);
    UniqueIsDistinct(q.nonBatch);
    SendingOk(s, q.batch);
    SendingOk(s, q.nonBatch);
  }

  // ---- One answer ----

  lemma {:induction false} TakenFlight(s: Sender, i: nat, answer: Answer)
    requires i < |s.inFlight| && Distinct(Updates(s.inFlight))
    ensures var us := Updates(Taken(s, i, answer).inFlight);
      Distinct(us) && forall u :: u in us <==> u in Updates(s.inFlight) && u != s.inFlight[i].update
    ensures forall c | c in Taken(s, i, answer).inFlight :: c in s.inFlight && c.update != s.inFlight[i].update
  {
    var vs, us := Updates(s.inFlight), Updates(Taken(s, i, answer).inFlight);
    assert us == vs[..i] + vs[i + 1..];
    assert vs == vs[..i] + [vs[i]] + vs[i + 1..];
    var cs := Taken(s, i, answer).inFlight;
    forall c | c in cs ensures c in s.inFlight && c.update != s.inFlight[i].update {
      var j :| 0 <= j < |cs| && cs[j] == c;
      assert us[j] == c.update && us[j] in us;
    }
  }

  /** Updates of one computation are for different names or faces. */
  lemma {:induction false} KeysDiffer(s: Sender, q: Lists, u: FibUpdate, v: FibUpdate)
    requires ListsInv(s, q) && u != v && (u in q.batch || u in q.nonBatch) && (v in q.batch || v in q.nonBatch)
    ensures !SameKey(u, v.name, v.face)
  {
    if u in q.batch && v in q.batch {
      var i, j :| 0 <= i < |q.batch| && 0 <= j < |q.batch| && q.batch[i] == u && q.batch[j] == v;
    } else if u in q.nonBatch && v in q.nonBatch {
      var i, j :| 0 <= i < |q.nonBatch| && 0 <= j < |q.nonBatch| && q.nonBatch[i] == u && q.nonBatch[j] == v;
    }
  }

  /** Carrying out a command touches its own name and face only. */
  lemma {:induction false} TakenFib(s: Sender, q: Lists, fib: Fib, i: nat, answer: Answer)
    requires Inv(s, q, fib) && i < |s.inFlight|
    ensures FibInv(Taken(s, i, answer), q, fib)
    ensures answer.Success? ==>
              var u := s.inFlight[i].update;
              Look(Taken(s, i, answer).fib, u.name, u.face) == Settled(s, u)
  {
    var c := s.inFlight[i];
    var t := Taken(s, i, answer);
    UpdateInFlight(s.inFlight, c);
    assert CommandOk(s, c);
    assert c.update in q.batch || c.update in q.nonBatch;
    forall n, f: Face | Listed(q.batch, n, f).None? && Listed(q.nonBatch, n, f).None?
      ensures Look(t.fib, n, f) == Look(fib, n, f)
    {
      assert !SameKey(c.update, n, f);
    }
    forall u | (u in q.batch || u in q.nonBatch) && u !in t.batch && u !in t.nonBatch && u !in t.dropped
      ensures Look(t.fib, u.name, u.face) == Settled(t, u)
    {
      KeysDiffer(s, q, c.update, u);
    }
  }

  /** No batch-face update is refused. */
  predicate BatchFaceAccepted(s: Sender, i: nat, answer: Answer)
    requires i < |s.inFlight|
  {
    answer.FaceNotFound? ==> s.inFlight[i].update.face != s.face
  }

  lemma {:induction false} RetryOk(s: Sender, q: Lists, fib: Fib, i: nat, answer: Answer)
    requires Inv(s, q, fib) && i < |s.inFlight| && answer.Timeout? && s.inFlight[i].nTimeouts < MAX_NUM_TIMEOUTS
    ensures Inv(Respond(s, i, answer), q, fib)
  {
    var c := s.inFlight[i];
    var u, t, t' := c.update, Taken(s, i, answer), Respond(s, i, answer);
    UpdateInFlight(s.inFlight, c);
    TakenFlight(s, i, answer);
    TakenFib(s, q, fib, i, answer);
    assert t' == Retry(t, u, c.nTimeouts);
    assert Updates(t'.inFlight) == Updates(t.inFlight) + [u];
    forall v ensures TimesSent(t'.log, v) == TimesSent(s.log, v) + if v == u then 1 else 0 {
      TimesSentAppend(s.log, Command(u, true, c.nTimeouts + 1), v);
    }
    forall d | d in t'.inFlight ensures CommandOk(t', d) {
      assert d in t.inFlight ==> CommandOk(s, d);
      assert CommandOk(s, c);
    }
    assert s.batch != [] ==> u.face == s.face;
  }

  /** An update for another face is acknowledged or dropped. */
  predicate FinishesNonBatch(s: Sender, i: nat, answer: Answer) {
    i < |s.inFlight| && s.inFlight[i].update.face != s.face && (answer.Success? || answer.FaceNotFound?)
  }

  lemma {:induction false} FinishedForm(s: Sender, q: Lists, fib: Fib, i: nat, answer: Answer)
    requires Inv(s, q, fib) && FinishesNonBatch(s, i, answer)
    ensures var u, t, t' := s.inFlight[i].update, Taken(s, i, answer), Respond(s, i, answer);
      && s.batch == [] && u in s.nonBatch
      && t'.nonBatch == Removed(s.nonBatch, u) && t'.inFlight == t.inFlight && t'.fib == t.fib
  {
    UpdateInFlight(s.inFlight, s.inFlight[i]);
  }

  lemma {:induction false} FinishedFlight(s: Sender, q: Lists, fib: Fib, i: nat, answer: Answer)
    requires Inv(s, q, fib) && FinishesNonBatch(s, i, answer)
    ensures ListsInv(Respond(s, i, answer), q) && FlightInv(Respond(s, i, answer)) && ReportInv(Respond(s, i, answer))
  {
    FinishedForm(s, q, fib, i, answer);
    TakenFlight(s, i, answer);
  }

  lemma {:induction false} FinishedLog(s: Sender, q: Lists, fib: Fib, i: nat, answer: Answer)
    requires Inv(s, q, fib) && FinishesNonBatch(s, i, answer)
    ensures LogInv(Respond(s, i, answer))
  {
    FinishedForm(s, q, fib, i, answer);
    TakenFlight(s, i, answer);
    var t' := Respond(s, i, answer);
    forall d | d in t'.inFlight ensures CommandOk(t', d) {
      assert CommandOk(s, d);
    }
  }

  lemma {:induction false} FinishedFib(s: Sender, q: Lists, fib: Fib, i: nat, answer: Answer)
    requires Inv(s, q, fib) && FinishesNonBatch(s, i, answer)
    ensures FibInv(Respond(s, i, answer), q, fib)
  {
    FinishedForm(s, q, fib, i, answer);
    TakenFib(s, q, fib, i, answer);
  }

  lemma {:induction false} FinishNonBatchOk(s: Sender, q: Lists, fib: Fib, i: nat, answer: Answer)
    requires Inv(s, q, fib) && FinishesNonBatch(s, i, answer)
    ensures Inv(Respond(s, i, answer), q, fib)
  {
    FinishedFlight(s, q, fib, i, answer);
    FinishedLog(s, q, fib, i, answer);
    FinishedFib(s, q, fib, i, answer);
  }

  /** The second list starts when the first is done. */
  lemma {:induction false} SecondListOk(s: Sender, q: Lists, fib: Fib)
    requires ListsInv(s, q) && FibInv(s, q, fib)
    requires s.batch == [] && s.inFlight == [] && s.nSuccess == 0 && s.nFailure == 0
    requires forall u :: TimesSent(s.log, u) <= MAX_NUM_TIMEOUTS + 1
    requires forall u: FibUpdate | u.face != s.face :: TimesSent(s.log, u) == 0 && u !in s.timedOut
    ensures Inv(SendUpdatesForNonBatchFaceId(s), q, fib)
  {
    if s.nonBatch != [] {
      SendingOk(s, s.nonBatch);
    }
  }

  /** An acknowledged batch-face update; the last one starts the second list. */
  lemma {:induction false} FinishBatchOk(s: Sender, q: Lists, fib: Fib, i: nat)
    requires Inv(s, q, fib) && i < |s.inFlight| && s.inFlight[i].update.face == s.face
    ensures Inv(Respond(s, i, Success), q, fib)
  {
    var c := s.inFlight[i];
    var u, t, t' := c.update, Taken(s, i, Success), Respond(s, i, Success);
    UpdateInFlight(s.inFlight, c);
    TakenFlight(s, i, Success);
    TakenFib(s, q, fib, i, Success);
    assert u in s.batch;
    var t1 := t.(batch := Removed(s.batch, u));
    forall d | d in t.inFlight ensures CommandOk(t1, d) {
      assert CommandOk(s, d);
    }
    assert FibInv(t1, q, fib);
    if t1.batch == [] {
      assert t1.inFlight == [] by {
        if t1.inFlight != [] { UpdateInFlight(t1.inFlight, t1.inFlight[0]); }
      }
      SecondListOk(t1, q, fib);
    }
  }

  /** Every answer keeps the invariant, as long as no batch-face update is refused and nothing
      unrecoverable happens. */
  lemma {:induction false} RespondOk(s: Sender, q: Lists, fib: Fib, i: nat, answer: Answer)
    requires Inv(s, q, fib) && i < |s.inFlight| && BatchFaceAccepted(s, i, answer)
    ensures !Respond(s, i, answer).halted ==> Inv(Respond(s, i, answer), q, fib)
  {
    if answer.Timeout? {
      if s.inFlight[i].nTimeouts < MAX_NUM_TIMEOUTS {
        RetryOk(s, q, fib, i, answer);
      }
    } else if answer.Success? && s.inFlight[i].update.face == s.face {
      FinishBatchOk(s, q, fib, i);
    } else if !answer.OtherError? {
      FinishNonBatchOk(s, q, fib, i, answer);
    }
  }

  // ---- Termination ----

  /** Attempts left for the commands in flight. */
  function AttemptsLeft(cs: seq<Command>): int {
    if cs == [] then 0
    else AttemptsLeft(cs[..|cs| - 1]) + (MAX_NUM_TIMEOUTS + 1 - cs[|cs| - 1].nTimeouts)
  }

  lemma {:induction false} AttemptsSplit(cs: seq<Command>, ds: seq<Command>)
    ensures AttemptsLeft(cs + ds) == AttemptsLeft(cs) + AttemptsLeft(ds)
  {
    if ds == [] {
      assert cs + ds == cs;
    } else {
      assert (cs + ds)[..|cs + ds| - 1] == cs + ds[..|ds| - 1];
      AttemptsSplit(cs, ds[..|ds| - 1]);
    }
  }

  lemma {:induction false} AttemptsOfCommands(us: seq<FibUpdate>)
    ensures AttemptsLeft(Commands(us)) == (MAX_NUM_TIMEOUTS + 1) * |us|
  {
    if us != [] {
      var k := |us| - 1;
      assert Commands(us)[..k] == Commands(us[..k]);
      AttemptsOfCommands(us[..k]);
    }
  }

  lemma {:induction false} AttemptsPositive(cs: seq<Command>)
    requires forall c | c in cs :: c.nTimeouts <= MAX_NUM_TIMEOUTS
    ensures AttemptsLeft(cs) >= |cs|
  {
    if cs != [] {
      AttemptsPositive(cs[..|cs| - 1]);
    }
  }

  /** Answers that can still come before the batch is done. */
  function Work(s: Sender): int {
    AttemptsLeft(s.inFlight) + if s.batch != [] then (MAX_NUM_TIMEOUTS + 1) * |s.nonBatch| else 0
  }

  lemma {:induction false} TakenAttempts(s: Sender, i: nat, answer: Answer)
    requires i < |s.inFlight|
    ensures AttemptsLeft(Taken(s, i, answer).inFlight) ==
            AttemptsLeft(s.inFlight) - (MAX_NUM_TIMEOUTS + 1 - s.inFlight[i].nTimeouts)
  {
    var cs := s.inFlight;
    AttemptsSplit(cs[..i], cs[i + 1..]);
    AttemptsSplit(cs[..i] + [cs[i]], cs[i + 1..]);
    AttemptsSplit(cs[..i], [cs[i]]);
    assert cs == (cs[..i] + [cs[i]]) + cs[i + 1..];
    assert [cs[i]][..0] == [];
  }

  lemma {:induction false} WorkIsNatural(s: Sender, q: Lists, fib: Fib)
    requires Inv(s, q, fib)
    ensures Work(s) >= 0
  {
    forall c | c in s.inFlight ensures c.nTimeouts <= MAX_NUM_TIMEOUTS { assert CommandOk(s, c); }
    AttemptsPositive(s.inFlight);
  }

  lemma {:induction false} RetryWork(s: Sender, i: nat, answer: Answer)
    requires i < |s.inFlight| && answer.Timeout? && s.inFlight[i].nTimeouts < MAX_NUM_TIMEOUTS
    ensures Work(Respond(s, i, answer)) < Work(s)
  {
    var c, t := s.inFlight[i], Taken(s, i, answer);
    var d := Command(c.update, true, c.nTimeouts + 1);
    TakenAttempts(s, i, answer);
    AttemptsSplit(t.inFlight, [d]);
    assert [d][..0] == [];
  }

  lemma {:induction false} FinishBatchWork(s: Sender, i: nat)
    requires i < |s.inFlight| && s.inFlight[i].update.face == s.face
    requires s.batch != [] && s.inFlight[i].nTimeouts <= MAX_NUM_TIMEOUTS
    ensures Work(Respond(s, i, Success)) < Work(s)
  {
    TakenAttempts(s, i, Success);
    AttemptsSplit(Taken(s, i, Success).inFlight, Commands(s.nonBatch));
    AttemptsOfCommands(s.nonBatch);
  }

  lemma {:induction false} FinishNonBatchWork(s: Sender, i: nat, answer: Answer)
    requires FinishesNonBatch(s, i, answer) && s.batch == [] && s.inFlight[i].nTimeouts <= MAX_NUM_TIMEOUTS
    ensures Work(Respond(s, i, answer)) < Work(s)
  {
    TakenAttempts(s, i, answer);
  }

  /** Every answer uses up some of the work, which is never negative. */
  lemma {:induction false} WorkDecreases(s: Sender, q: Lists, fib: Fib, i: nat, answer: Answer)
    requires Inv(s, q, fib) && i < |s.inFlight| && BatchFaceAccepted(s, i, answer) && !Respond(s, i, answer).halted
    ensures Work(Respond(s, i, answer)) < Work(s)
  {
    var c := s.inFlight[i];
    assert CommandOk(s, c);
    UpdateInFlight(s.inFlight, c);
    if answer.Timeout? {
      RetryWork(s, i, answer);
    } else if answer.Success? && c.update.face == s.face {
      FinishBatchWork(s, i);
    } else {
      FinishNonBatchWork(s, i, answer);
    }
  }

  // ---- Whole exchanges ----

  datatype Event = Event(index: nat, answer: Answer)

  /** Answers in any order, none refusing the batch face and none unrecoverable. */
  ghost predicate Exchange(ss: seq<Sender>, es: seq<Event>, q: Lists, fib: Fib) {
    && |ss| == |es| + 1 && ss[0] == Start(q, fib)
    && forall k | 0 <= k < |es| :: AcceptedAt(ss, es, k)
  }

  ghost predicate AcceptedAt(ss: seq<Sender>, es: seq<Event>, k: nat) {
    k < |es| && k + 1 < |ss| && Answered(ss[k], es[k], ss[k + 1])
  }

  predicate Answered(s: Sender, e: Event, t: Sender) {
    && e.index < |s.inFlight| && BatchFaceAccepted(s, e.index, e.answer)
    && t == Respond(s, e.index, e.answer) && !t.halted
  }

  lemma {:induction false} AnsweredOk(s: Sender, e: Event, t: Sender, q: Lists, fib: Fib)
    requires Inv(s, q, fib) && Answered(s, e, t)
    ensures Inv(t, q, fib) && Work(t) < Work(s)
  {
    RespondOk(s, q, fib, e.index, e.answer);
    WorkDecreases(s, q, fib, e.index, e.answer);
  }

  lemma {:induction false} StartWork(q: Lists, fib: Fib)
    ensures Work(Start(q, fib)) <= 11 * (|q.batch| + |q.nonBatch|)
  {
    AttemptsOfCommands(q.batch);
    AttemptsOfCommands(q.nonBatch);
    assert [] + Commands(q.batch) == Commands(q.batch) && [] + Commands(q.nonBatch) == Commands(q.nonBatch);
  }

  /** In every exchange, every state satisfies the invariant, and an exchange has at most eleven
      answers per update. */
  lemma {:induction false} ExchangeOk(ss: seq<Sender>, es: seq<Event>, q: Lists, fib: Fib, k: nat)
    requires ListsOk(q) && Exchange(ss, es, q, fib) && k <= |es|
    ensures Inv(ss[k], q, fib)
    ensures k + Work(ss[k]) <= 11 * (|q.batch| + |q.nonBatch|)
  {
    ExchangeInv(ss, es, q, fib, k);
    if k == 0 {
      StartWork(q, fib);
    } else {
      ExchangeOk(ss, es, q, fib, k - 1);
      assert AcceptedAt(ss, es, k - 1);
      AnsweredOk(ss[k - 1], es[k - 1], ss[k], q, fib);
    }
  }

  lemma {:induction false} ExchangeInv(ss: seq<Sender>, es: seq<Event>, q: Lists, fib: Fib, k: nat)
    requires ListsOk(q) && Exchange(ss, es, q, fib) && k <= |es|
    ensures Inv(ss[k], q, fib)
  {
    if k == 0 {
      StartOk(q, fib);
    } else {
      ExchangeInv(ss, es, q, fib, k - 1);
      assert AcceptedAt(ss, es, k - 1);
      AnsweredOk(ss[k - 1], es[k - 1], ss[k], q, fib);
    }
  }

  lemma {:induction false} ExchangeIsShort(ss: seq<Sender>, es: seq<Event>, q: Lists, fib: Fib)
    requires ListsOk(q) && Exchange(ss, es, q, fib)
    ensures |es| <= 11 * (|q.batch| + |q.nonBatch|)
  {
    ExchangeOk(ss, es, q, fib, |es|);
    WorkIsNatural(ss[|es|], q, fib);
  }

  /** Some removal timed out and was then carried through: its retry was sent as an addition. */
  ghost predicate RemovalTimedOut(s: Sender, q: Lists) {
    exists u :: (u in q.batch || u in q.nonBatch) && u.action == REMOVE_NEXTHOP && u in s.timedOut && u !in s.dropped
  }

  /** The update for this name and face was given up because its face does not exist. */
  ghost predicate DroppedAt(s: Sender, q: Lists, n: Name, f: Face) {
    exists u :: (u in q.batch || u in q.nonBatch) && u in s.dropped && SameKey(u, n, f)
  }

  /** The FIB went from `fib` to that of `s` exactly as the computed updates say, but for dropped ones. */
  ghost predicate Reflects(s: Sender, q: Lists, fib: Fib) {
    forall n, f :: !DroppedAt(s, q, n, f) ==> Look(s.fib, n, f) == Apply(At(q, n, f).fib, Look(fib, n, f))
  }

  /** The update for this name and face was given up, or is a removal that timed out. */
  ghost predicate SpoiledAt(s: Sender, q: Lists, n: Name, f: Face) {
    exists u :: (u in q.batch || u in q.nonBatch) && SameKey(u, n, f)
                && (u in s.dropped || (u.action == REMOVE_NEXTHOP && u in s.timedOut))
  }

  lemma {:induction false} SettledReflects(s: Sender, q: Lists, fib: Fib, n: Name, f: Face)
    requires Inv(s, q, fib) && ListsOk(q) && s.nSuccess == 1 && !SpoiledAt(s, q, n, f)
    ensures Look(s.fib, n, f) == Apply(At(q, n, f).fib, Look(fib, n, f))
  {
    SplitLists(q);
    if At(q, n, f).fib.Some? {
      var us := if f == q.face then q.batch else q.nonBatch;
      var u :| u in us && SameKey(u, n, f) && At(q, n, f).fib.value == ActOf(u);
      assert Look(s.fib, u.name, u.face) == Settled(s, u);
    } else {
      assert Listed(q.batch, n, f).None? && Listed(q.nonBatch, n, f).None?;
    }
  }

  /** When success is reported, the FIB reflects every update that was not dropped, and is unchanged
      elsewhere, if and only if no removal that was carried through had timed out. */
  lemma {:induction false} SuccessReflects(s: Sender, q: Lists, fib: Fib)
    requires Inv(s, q, fib) && ListsOk(q) && s.nSuccess == 1
    ensures Reflects(s, q, fib) <==> !RemovalTimedOut(s, q)
  {
    if RemovalTimedOut(s, q) {
      var u :| (u in q.batch || u in q.nonBatch) && u.action == REMOVE_NEXTHOP && u in s.timedOut && u !in s.dropped;
      ListedIn(q, u);
      forall v | (v in q.batch || v in q.nonBatch) && SameKey(v, u.name, u.face) ensures v == u {
        if v != u {
          KeysDiffer(s, q, v, u);
        }
      }
      assert !DroppedAt(s, q, u.name, u.face);
      assert Look(s.fib, u.name, u.face) == Some(u.cost);
      assert At(q, u.name, u.face).fib == Some(Remove);
    } else {
      forall n, f: Face | !DroppedAt(s, q, n, f)
        ensures Look(s.fib, n, f) == Apply(At(q, n, f).fib, Look(fib, n, f))
      {
        assert !SpoiledAt(s, q, n, f);
        SettledReflects(s, q, fib, n, f);
      }
    }
  }

  lemma {:induction false} ListedIn(q: Lists, u: FibUpdate)
    requires ListsOk(q) && (u in q.batch || u in q.nonBatch)
    ensures At(q, u.name, u.face).fib == Some(ActOf(u))
  {
    if u in q.batch { ListedAt(q.batch, u); } else { ListedAt(q.nonBatch, u); }
  }

  // ---- Exchanges in which the batch face is refused ----

  /** Answers of any kind, in any order; after an unrecoverable error there are no more. */
  ghost predicate AnyExchange(ss: seq<Sender>, es: seq<Event>, q: Lists, fib: Fib) {
    && |ss| == |es| + 1 && ss[0] == Start(q, fib)
    && forall k | 0 <= k < |es| :: AnsweredAt(ss, es, k)
  }

  ghost predicate AnsweredAt(ss: seq<Sender>, es: seq<Event>, k: nat) {
    k < |es| && k + 1 < |ss| && AnyAnswer(ss[k], es[k], ss[k + 1])
  }

  predicate AnyAnswer(s: Sender, e: Event, t: Sender) {
    !s.halted && e.index < |s.inFlight| && t == Respond(s, e.index, e.answer)
  }

  predicate RefusesBatch(s: Sender, e: Event) {
    e.index < |s.inFlight| && e.answer.FaceNotFound? && s.inFlight[e.index].update.face == s.face
  }

  /** How many of the first `k` answers refuse a command for the batch face. */
  function Refusals(ss: seq<Sender>, es: seq<Event>, k: nat): nat
    requires k <= |es| && k <= |ss|
  {
    if k == 0 then 0 else Refusals(ss, es, k - 1) + if RefusesBatch(ss[k - 1], es[k - 1]) then 1 else 0
  }

  /** Every refused batch-face command reports failure, and nothing else does. */
  lemma {:induction false} EachRefusalFails(ss: seq<Sender>, es: seq<Event>, q: Lists, fib: Fib, k: nat)
    requires AnyExchange(ss, es, q, fib) && k <= |es|
    ensures ss[k].nFailure == Refusals(ss, es, k)
  {
    if k > 0 {
      EachRefusalFails(ss, es, q, fib, k - 1);
      assert AnsweredAt(ss, es, k - 1);
      CountsRefusal(ss[k - 1], es[k - 1], ss[k]);
    }
  }

  lemma {:induction false} CountsRefusal(s: Sender, e: Event, t: Sender)
    requires AnyAnswer(s, e, t)
    ensures t.nFailure == s.nFailure + if RefusesBatch(s, e) then 1 else 0
  {
  }

  lemma {:induction false} HaltChangesNothing(s: Sender, e: Event, t: Sender)
    requires AnyAnswer(s, e, t) && t.halted
    ensures !RefusesBatch(s, e) && t.nSuccess == s.nSuccess && t.batch == s.batch
  {
  }

  /** A refused update is still in the batch list, and no command for it is in flight any more. */
  ghost predicate Stuck(s: Sender, u: FibUpdate) {
    && u in s.batch && u.face == s.face && s.nSuccess == 0
    && forall c | c in s.inFlight :: c.update.face == s.face && c.update != u
  }

  lemma {:induction false} RefusalSticks(s: Sender, q: Lists, fib: Fib, e: Event)
    requires Inv(s, q, fib) && RefusesBatch(s, e)
    ensures Stuck(Respond(s, e.index, e.answer), s.inFlight[e.index].update)
  {
    var u := s.inFlight[e.index].update;
    UpdateInFlight(s.inFlight, s.inFlight[e.index]);
    TakenFlight(s, e.index, e.answer);
    forall c | c in s.inFlight ensures c.update.face == s.face {
      UpdateInFlight(s.inFlight, c);
    }
  }

  lemma {:induction false} StaysStuck(s: Sender, i: nat, answer: Answer, u: FibUpdate)
    requires Stuck(s, u) && i < |s.inFlight|
    ensures Stuck(Respond(s, i, answer), u)
  {
    var c := s.inFlight[i];
    assert c in s.inFlight;
    assert forall d | d in Taken(s, i, answer).inFlight :: d in s.inFlight;
    assert u in Removed(s.batch, c.update);
  }

  ghost predicate SomeStuck(s: Sender) { exists u :: Stuck(s, u) }

  ghost predicate StuckOrFine(s: Sender, q: Lists, fib: Fib, refused: bool) {
    if refused then SomeStuck(s) else Inv(s, q, fib)
  }

  lemma {:induction false} NextStuckOrFine(s: Sender, q: Lists, fib: Fib, e: Event, t: Sender, refused: bool)
    requires AnyAnswer(s, e, t) && !t.halted && StuckOrFine(s, q, fib, refused)
    ensures StuckOrFine(t, q, fib, refused || RefusesBatch(s, e))
  {
    if refused {
      var u :| Stuck(s, u);
      StaysStuck(s, e.index, e.answer, u);
    } else if RefusesBatch(s, e) {
      RefusalSticks(s, q, fib, e);
    } else {
      RespondOk(s, q, fib, e.index, e.answer);
    }
  }

  /** In an exchange of any answers, either no batch-face command has been refused and the invariant of
      the sending holds, or an update is stuck in the batch list. */
  lemma {:induction false} RefusedOrFine(ss: seq<Sender>, es: seq<Event>, q: Lists, fib: Fib, k: nat)
    requires ListsOk(q) && AnyExchange(ss, es, q, fib) && k <= |es| && !ss[k].halted
    ensures StuckOrFine(ss[k], q, fib, Refusals(ss, es, k) > 0)
  {
    if k == 0 {
      StartOk(q, fib);
    } else {
      assert AnsweredAt(ss, es, k - 1);
      RefusedOrFine(ss, es, q, fib, k - 1);
      NextStuckOrFine(ss[k - 1], q, fib, es[k - 1], ss[k], Refusals(ss, es, k - 1) > 0);
    }
  }

  lemma {:induction false} StuckBlocks(s: Sender, q: Lists, fib: Fib, refused: bool)
    requires StuckOrFine(s, q, fib, refused) && refused
    ensures s.nSuccess == 0 && s.batch != []
  {
  }

  /** Once a batch-face command has been refused, success is never reported, whatever else is answered:
      the refused update stays in the batch list, so the second phase does not start. */
  lemma {:induction false} RefusalBlocksSuccess(ss: seq<Sender>, es: seq<Event>, q: Lists, fib: Fib, k: nat)
    requires ListsOk(q) && AnyExchange(ss, es, q, fib) && k <= |es|
    requires Refusals(ss, es, k) > 0
    ensures ss[k].nSuccess == 0 && ss[k].batch != []
  {
    if ss[k].halted {
      assert AnsweredAt(ss, es, k - 1);
      HaltChangesNothing(ss[k - 1], es[k - 1], ss[k]);
      RefusalBlocksSuccess(ss, es, q, fib, k - 1);
    } else {
      RefusedOrFine(ss, es, q, fib, k);
      StuckBlocks(ss[k], q, fib, true);
    }
  }

  // ---- Updates for a removed face ----

  /** Everything sent or still to be sent is for a face other than the batch face. */
  ghost predicate AvoidsFace(s: Sender) {
    && s.batch == [] && (forall u | u in s.nonBatch :: u.face != s.face)
    && (forall c | c in s.inFlight :: c.update.face != s.face) && (forall c | c in s.log :: c.update.face != s.face)
  }

  lemma {:induction false} StaysAway(s: Sender, e: Event, t: Sender)
    requires AvoidsFace(s) && AnyAnswer(s, e, t)
    ensures AvoidsFace(t) && t.face == s.face
  {
    assert s.inFlight[e.index] in s.inFlight;
    assert forall d | d in Taken(s, e.index, e.answer).inFlight :: d in s.inFlight;
  }

  /** An exchange that starts with an empty batch list never sends a command for the batch face, whatever
      is answered. */
  lemma {:induction false} NothingSentToFace(ss: seq<Sender>, es: seq<Event>, q: Lists, fib: Fib, k: nat)
    requires ListsOk(q) && q.batch == [] && AnyExchange(ss, es, q, fib) && k <= |es|
    ensures AvoidsFace(ss[k]) && ss[k].face == q.face
    ensures forall c | c in ss[k].log :: c.update.face != q.face
  {
    if k > 0 {
      NothingSentToFace(ss, es, q, fib, k - 1);
      assert AnsweredAt(ss, es, k - 1);
      StaysAway(ss[k - 1], es[k - 1], ss[k]);
    }
  }

  // ---- What each answer does ----

  /** A command that has timed out fewer than ten times is sent again, as an addition with the same cost;
      nothing else is sent or reported. */
  lemma {:induction false} TimeoutRetries(s: Sender, i: nat, applied: bool)
    requires i < |s.inFlight| && s.inFlight[i].nTimeouts < 10
    ensures var c, t := s.inFlight[i], Respond(s, i, Timeout(applied));
      && t.inFlight == s.inFlight[..i] + s.inFlight[i + 1..] + [Command(c.update, true, c.nTimeouts + 1)]
      && t.log == s.log + [Command(c.update, true, c.nTimeouts + 1)]
      && t.batch == s.batch && t.nonBatch == s.nonBatch && t.nSuccess == s.nSuccess && t.nFailure == s.nFailure
      && !t.halted == !s.halted
  {
  }

  /** Exactly the tenth retry's timeout and errors other than a missing face stop the updater. */
  lemma {:induction false} HaltsExactly(s: Sender, i: nat, answer: Answer)
    requires i < |s.inFlight| && !s.halted
    ensures Respond(s, i, answer).halted <==>
            answer.OtherError? || (answer.Timeout? && s.inFlight[i].nTimeouts >= 10)
  {
  }

  /** A removal whose retry is acknowledged is in the FIB as a next hop of cost 0. */
  lemma {:induction false} RemovalBecomesNextHop(s: Sender, q: Lists, fib: Fib, u: FibUpdate)
    requires Inv(s, q, fib) && ListsOk(q) && s.nSuccess == 1 && (u in q.batch || u in q.nonBatch)
    requires u.action == REMOVE_NEXTHOP && u in s.timedOut && u !in s.dropped
    ensures Look(s.fib, u.name, u.face) == Some(0)
  {
    assert Look(s.fib, u.name, u.face) == Settled(s, u);
  }
}
