/** The RIB's update queue together with the updater's asynchronous exchange with the forwarder.

    Steps may interleave freely: clients enqueue, the next batch is launched when none is in
    progress, the forwarder answers commands in any order, and a reported success applies the batch
    to the RIB and runs its callback. */
module Engine {
  import opened Names
  import opened RibSpec
  import opened FibTheory
  import opened FibSteps
  import opened FibRuns
  import opened FibUpdaters
  import opened SendProtocol

  /** A queued update with the identity of its success callback. */
  datatype Item = Item(update: RibUpdate, callback: nat)

  /** `lists` and `fibBefore` belong to the batch in progress; `handled` counts the success reports of
      that batch that have been acted on; the last three fields record the history. */
  datatype Engine = Engine(rib: PlainRib, queue: seq<Item>, inProgress: bool, current: Item,
                           lists: Lists, fibBefore: Fib, sender: Sender, handled: nat,
                           enqueued: seq<Item>, applied: seq<Item>, notified: seq<nat>)

  datatype Step =
    | Enqueue(item: Item)
    | Launch(lists: Lists)
    | Answer(event: Event)
    | Complete(rib: PlainRib)

  /** `sendBatchFromQueue`: the front batch is taken, its updates are computed and sent. */
  ghost predicate CanLaunch(e: Engine, q: Lists) {
    && e.queue != [] && !e.inProgress
    && var u := e.queue[0].update;
      IsDefined(e.rib, u) && ListsOk(q) && q.face == u.route.face && Computed(q, e.rib, u)
  }

  ghost predicate Next(e: Engine, step: Step, e': Engine) {
    match step
    case Enqueue(item) => e' == e.(queue := e.queue + [item], enqueued := e.enqueued + [item])
    case Launch(q) =>
      && CanLaunch(e, q)
      && e' == e.(queue := e.queue[1..], inProgress := true, current := e.queue[0], lists := q,
                  fibBefore := e.sender.fib, sender := Start(q, e.sender.fib), handled := 0)
    case Answer(event) =>
      Answered(e.sender, event, e'.sender) && e' == e.(sender := e'.sender)
    case Complete(b) =>
      // `onFibUpdateSuccess`, once for every success the updater reports
      && e.handled < e.sender.nSuccess
      && IsDefined(e.rib, e.current.update) && RibStep(e.rib, e.current.update, b)
      && e' == e.(rib := b, inProgress := false, handled := e.handled + 1,
                  applied := e.applied + [e.current], notified := e.notified + [e.current.callback])
  }

  ghost predicate Run(es: seq<Engine>, steps: seq<Step>) {
    |es| == |steps| + 1 && forall i | 0 <= i < |steps| :: NextAt(es, steps, i)
  }

  ghost predicate NextAt(es: seq<Engine>, steps: seq<Step>, i: nat) {
    i < |steps| && i + 1 < |es| && Next(es[i], steps[i], es[i + 1])
  }

  function Idle(rib: PlainRib, fib: Fib): Engine {
    var route := Route(0, 0, 0, false, false, 0);
    Engine(rib, [], false, Item(RibUpdate(Register, [], route), 0), Lists(0, [], [], []), fib,
           Sender(0, [], [], [], fib, 0, 0, false, [], {}, {}), 0, [], [], [])
  }

  // ---- Queue discipline ----

  function Callbacks(items: seq<Item>): seq<nat> { seq(|items|, i requires 0 <= i < |items| => items[i].callback) }

  /** At most one batch is in flight; what was enqueued is what was applied, then the batch in
      progress, then the queue; every applied batch has had its own callback run once. */
  ghost predicate QueueInv(e: Engine) {
    && e.enqueued == e.applied + (if e.inProgress then [e.current] else []) + e.queue
    && e.notified == Callbacks(e.applied)
    && (e.inProgress ==> e.handled == 0 && ListsOk(e.lists) && Inv(e.sender, e.lists, e.fibBefore))
    && (!e.inProgress ==> e.handled == e.sender.nSuccess && e.sender.inFlight == [])
  }

  lemma {:induction false} NoAnswerWhenIdle(e: Engine, event: Event, e': Engine)
    requires QueueInv(e) && Next(e, Answer(event), e')
    ensures e.inProgress
  {
  }

  lemma {:induction false} QueueStep(e: Engine, step: Step, e': Engine)
    requires QueueInv(e) && Next(e, step, e')
    ensures QueueInv(e')
  {
    match step {
      case Enqueue(item) =>
      case Launch(q) =>
        StartOk(q, e.sender.fib);
        assert e.queue == [e.queue[0]] + e.queue[1..];
      case Answer(event) =>
        RespondOk(e.sender, e.lists, e.fibBefore, event.index, event.answer);
      case Complete(b) =>
        NothingInFlight(e);
        assert Callbacks(e.applied + [e.current]) == Callbacks(e.applied) + [e.current.callback];
    }
  }

  lemma {:induction false} NothingInFlight(e: Engine)
    requires QueueInv(e) && e.handled < e.sender.nSuccess
    ensures e.inProgress && e.sender.nSuccess == 1 && e.sender.inFlight == []
  {
    if e.sender.inFlight != [] {
      UpdateInFlight(e.sender.inFlight, e.sender.inFlight[0]);
    }
  }

  /** FIFO order, one batch at a time and one callback per applied batch, in every run. */
  lemma {:induction false} QueueIsFifo(es: seq<Engine>, steps: seq<Step>, rib: PlainRib, fib: Fib, k: nat)
    requires Run(es, steps) && es[0] == Idle(rib, fib) && k <= |steps|
    ensures QueueInv(es[k])
  {
    if k > 0 {
      QueueIsFifo(es, steps, rib, fib, k - 1);
      assert NextAt(es, steps, k - 1);
      QueueStep(es[k - 1], steps[k - 1], es[k]);
    }
  }

  /** What clients enqueued in the first `k` steps, in order. */
  function EnqueuedBy(steps: seq<Step>, k: nat): seq<Item>
    requires k <= |steps|
  {
    if k == 0 then []
    else EnqueuedBy(steps, k - 1) + if steps[k - 1].Enqueue? then [steps[k - 1].item] else []
  }

  /** The routes after the updates of the items, in order. */
  function EditedBy(rib: PlainRib, items: seq<Item>): PlainRib {
    if items == [] then rib else Edit(EditedBy(rib, items[..|items| - 1]), items[|items| - 1].update)
  }

  /** Nothing enqueued is lost, repeated or reordered on its way into the RIB: at any moment the RIB holds
      the routes that some first part of the enqueued updates make, the callbacks run are those of that
      part, and what is left is the batch in progress and the queue. */
  lemma {:induction false} RibFollowsQueue(es: seq<Engine>, steps: seq<Step>, rib: PlainRib, fib: Fib, k: nat)
    requires Run(es, steps) && es[0] == Idle(rib, fib) && k <= |steps|
    ensures var e := es[k];
      && EnqueuedBy(steps, k) == e.applied + (if e.inProgress then [e.current] else []) + e.queue
      && SameRoutes(EditedBy(rib, e.applied), e.rib) && e.notified == Callbacks(e.applied)
  {
    QueueIsFifo(es, steps, rib, fib, k);
    HistoryIsTrue(es, steps, rib, fib, k);
  }

  lemma {:induction false} HistoryIsTrue(es: seq<Engine>, steps: seq<Step>, rib: PlainRib, fib: Fib, k: nat)
    requires Run(es, steps) && es[0] == Idle(rib, fib) && k <= |steps|
    ensures es[k].enqueued == EnqueuedBy(steps, k) && SameRoutes(EditedBy(rib, es[k].applied), es[k].rib)
  {
    if k > 0 {
      HistoryIsTrue(es, steps, rib, fib, k - 1);
      assert NextAt(es, steps, k - 1);
      HistoryStep(es[k - 1], steps[k - 1], es[k], rib);
    }
  }

  lemma {:induction false} HistoryStep(e: Engine, step: Step, e': Engine, rib: PlainRib)
    requires Next(e, step, e') && SameRoutes(EditedBy(rib, e.applied), e.rib)
    ensures e'.enqueued == e.enqueued + if step.Enqueue? then [step.item] else []
    ensures SameRoutes(EditedBy(rib, e'.applied), e'.rib)
  {
    if step.Complete? {
      assert (e.applied + [e.current])[..|e.applied|] == e.applied;
      EditRespectsRoutes(EditedBy(rib, e.applied), e.rib, e.current.update);
    }
  }

  lemma {:induction false} EditRespectsRoutes(a: PlainRib, b: PlainRib, u: RibUpdate)
    requires SameRoutes(a, b)
    ensures SameRoutes(Edit(a, u), Edit(b, u))
  {
  }

  // ---- The FIB between batches ----

  type Cells = iset<(Name, Face)>

  /** Every inherited record is the from-scratch one, and so is the FIB outside `dirty`. */
  ghost predicate CleanExcept(a: PlainRib, fib: Fib, dirty: Cells) {
    RecordsExact(a) && forall n, f: Face | (n, f) !in dirty :: Look(fib, n, f) == Want(a, n, f)
  }

  /** After a batch: a cell with an update is dirty if that update was spoiled, any other stays as it was. */
  ghost function DirtyAfter(dirty: Cells, s: Sender, q: Lists): Cells {
    iset n: Name, f: Face | (if At(q, n, f).fib.Some? then SpoiledAt(s, q, n, f) else (n, f) in dirty) :: (n, f)
  }

  /** The cells whose latest update, in any batch applied so far, was given up or was a removal that
      timed out. */
  ghost function Dirty(es: seq<Engine>, steps: seq<Step>, k: nat): Cells
    requires k <= |steps| && |steps| < |es|
  {
    if k == 0 then iset{}
    else
      var dirty, e := Dirty(es, steps, k - 1), es[k - 1];
      if steps[k - 1].Complete? then DirtyAfter(dirty, e.sender, e.lists) else dirty
  }

  /** What clients may ask for: registrations and unregistrations that meet the step condition. */
  ghost predicate KeepsStep(e: Engine, step: Step) {
    step.Launch? ==>
      e.queue != [] && e.queue[0].update.action != RemoveFace && Keeps(e.rib, e.queue[0].update)
  }

  /** While a batch is in progress, the FIB it started from counts. */
  ghost predicate DataInv(e: Engine, dirty: Cells) {
    if e.inProgress then
      && e.current.update.action != RemoveFace && Keeps(e.rib, e.current.update)
      && IsDefined(e.rib, e.current.update) && Computed(e.lists, e.rib, e.current.update)
      && CleanExcept(e.rib, e.fibBefore, dirty)
    else CleanExcept(e.rib, e.sender.fib, dirty)
  }

  lemma {:induction false} RecordsFollow(a: PlainRib, u: RibUpdate, b: PlainRib)
    requires u.action != RemoveFace && IsDefined(a, u) && RecordsExact(a) && RibStep(a, u, b) && Keeps(a, u)
    ensures RecordsExact(b)
    ensures forall n, f :: Apply(Emitted(a, u, n, f).fib, Want(a, n, f)) == Want(b, n, f)
  {
    AllRightIsKeeps(a, u, b);
    forall n, f: Face ensures RightAt(a, b, Emitted(a, u, n, f), n, f) {}
  }

  /** One applied batch, whatever was dropped or timed out. */
  lemma {:induction false} BatchLeaves(a: PlainRib, u: RibUpdate, b: PlainRib, s: Sender, q: Lists, fib: Fib,
      dirty: Cells)
    requires u.action != RemoveFace && IsDefined(a, u) && RibStep(a, u, b) && Keeps(a, u)
    requires CleanExcept(a, fib, dirty) && Computed(q, a, u)
    requires ListsOk(q) && Inv(s, q, fib) && s.nSuccess == 1
    ensures CleanExcept(b, s.fib, DirtyAfter(dirty, s, q))
  {
    RecordsFollow(a, u, b);
    forall n, f: Face | (n, f) !in DirtyAfter(dirty, s, q) ensures Look(s.fib, n, f) == Want(b, n, f) {
      CellLeaves(a, u, b, s, q, fib, dirty, n, f);
    }
  }

  lemma {:induction false} CellLeaves(a: PlainRib, u: RibUpdate, b: PlainRib, s: Sender, q: Lists, fib: Fib,
      dirty: Cells, n: Name, f: Face)
    requires IsDefined(a, u) && CleanExcept(a, fib, dirty) && Computed(q, a, u)
    requires ListsOk(q) && Inv(s, q, fib) && s.nSuccess == 1
    requires Apply(Emitted(a, u, n, f).fib, Want(a, n, f)) == Want(b, n, f)
    requires (n, f) !in DirtyAfter(dirty, s, q)
    ensures Look(s.fib, n, f) == Want(b, n, f)
  {
    assert At(q, n, f) == Emitted(a, u, n, f);
    if At(q, n, f).fib.None? {
      UnlistedIsClean(s, q, n, f);
    }
    SettledReflects(s, q, fib, n, f);
  }

  lemma {:induction false} UnlistedIsClean(s: Sender, q: Lists, n: Name, f: Face)
    requires ListsOk(q) && At(q, n, f).fib.None?
    ensures !SpoiledAt(s, q, n, f)
  {
    forall u | (u in q.batch || u in q.nonBatch) && SameKey(u, n, f) ensures false {
      ListedIn(q, u);
    }
  }

  lemma {:induction false} DataStep(e: Engine, step: Step, e': Engine, dirty: Cells)
    requires QueueInv(e) && DataInv(e, dirty) && Next(e, step, e') && KeepsStep(e, step)
    ensures DataInv(e', if step.Complete? then DirtyAfter(dirty, e.sender, e.lists) else dirty)
  {
    match step {
      case Enqueue(item) =>
      case Launch(q) =>
      case Answer(event) =>
        NoAnswerWhenIdle(e, event, e');
      case Complete(b) =>
        NothingInFlight(e);
        BatchLeaves(e.rib, e.current.update, b, e.sender, e.lists, e.fibBefore, dirty);
    }
  }

  /** In every run from a consistent state whose launched updates meet `Keeps`, with refusals on other
      faces, timeouts of anything, answers in any order and any interleaving of clients: whenever no
      batch is in progress, every inherited record is the from-scratch one, and FIB and RIB differ only
      where the latest update was dropped or was a removal that timed out. */
  lemma {:induction false} DamageIsLocal(es: seq<Engine>, steps: seq<Step>, rib: PlainRib, fib: Fib, k: nat)
    requires Run(es, steps) && es[0] == Idle(rib, fib) && Consistent(rib, fib) && k <= |steps|
    requires forall i | 0 <= i < |steps| :: KeepsStep(es[i], steps[i])
    ensures DataInv(es[k], Dirty(es, steps, k))
    ensures !es[k].inProgress ==> CleanExcept(es[k].rib, es[k].sender.fib, Dirty(es, steps, k))
  {
    if k > 0 {
      DamageIsLocal(es, steps, rib, fib, k - 1);
      QueueIsFifo(es, steps, rib, fib, k - 1);
      assert NextAt(es, steps, k - 1);
      assert KeepsStep(es[k - 1], steps[k - 1]);
      DataStep(es[k - 1], steps[k - 1], es[k], Dirty(es, steps, k - 1));
    }
  }

  // ---- Without refusals and timed-out removals ----

  /** Nothing is refused and no removal times out. */
  predicate SmoothStep(e: Engine, step: Step) {
    step.Answer? ==>
      && step.event.index < |e.sender.inFlight| && !step.event.answer.FaceNotFound?
      && (step.event.answer.Timeout? ==> e.sender.inFlight[step.event.index].update.action == ADD_NEXTHOP)
  }

  ghost predicate NoLoss(s: Sender) { s.dropped == {} && forall u | u in s.timedOut :: u.action == ADD_NEXTHOP }

  lemma {:induction false} NothingIsDirty(es: seq<Engine>, steps: seq<Step>, k: nat)
    requires Run(es, steps) && k <= |steps| && NoLoss(es[0].sender)
    requires forall i | 0 <= i < |steps| :: SmoothStep(es[i], steps[i])
    ensures NoLoss(es[k].sender) && Dirty(es, steps, k) == iset{}
  {
    if k > 0 {
      NothingIsDirty(es, steps, k - 1);
      assert NextAt(es, steps, k - 1);
      assert SmoothStep(es[k - 1], steps[k - 1]);
      StaysLossless(es[k - 1], steps[k - 1], es[k]);
      NothingSpoiled(es[k - 1].sender, es[k - 1].lists);
    }
  }

  lemma {:induction false} StaysLossless(e: Engine, step: Step, e': Engine)
    requires Next(e, step, e') && SmoothStep(e, step) && NoLoss(e.sender)
    ensures NoLoss(e'.sender)
  {
  }

  lemma {:induction false} NothingSpoiled(s: Sender, q: Lists)
    requires NoLoss(s)
    ensures DirtyAfter(iset{}, s, q) == iset{}
  {
    assert forall n, f: Face :: !SpoiledAt(s, q, n, f);
  }

  /** In such runs FIB and RIB are consistent whenever no batch is in progress. */
  lemma {:induction false} FibFollowsRib(es: seq<Engine>, steps: seq<Step>, rib: PlainRib, fib: Fib, k: nat)
    requires Run(es, steps) && es[0] == Idle(rib, fib) && Consistent(rib, fib) && k <= |steps|
    requires forall i | 0 <= i < |steps| :: KeepsStep(es[i], steps[i])
    requires forall i | 0 <= i < |steps| :: SmoothStep(es[i], steps[i])
    ensures !es[k].inProgress ==> Consistent(es[k].rib, es[k].sender.fib)
  {
    DamageIsLocal(es, steps, rib, fib, k);
    NothingIsDirty(es, steps, k);
  }
}
