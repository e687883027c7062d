# The NFD RIB, the FIB updater and the ndn-cxx types under them, in Dafny

This project models four cores of NFD 0.6.3 and ndn-cxx 0.6.3 and proves what they keep.

* **RIB and incremental FIB** (`RibSpec`, `RibLaws`, `FibTheory`, `FibSteps`, `FibRuns`, `FibGaps`, `CaptureCounter`,
  `RibTree`, `RouteSets`, `RibQueries`, `Rib`, `FibUpdater`, `RibUpdates`). The updater never recomputes the FIB: for
  each RIB change it walks a subtree and emits next-hop updates that follow the ChildInherit and Capture flags.
  `RibSpec.Want` is the simple definition it speeds up: an entry's own cheapest route per face, else the route of the
  nearest child-inheriting ancestor, where a capturing entry stops the search. The classes `Ribs.Rib` and
  `FibUpdaters.FibUpdater` carry out the code's loops and are proved to emit, for every name and face, exactly
  `RibSpec.Emitted`. `FibSteps.PointIsExact` then says, for every name and face, when that leaves the FIB and the
  inherited record equal to the from-scratch ones: **if and only if** `FibSteps.PointOk` holds, a condition on the
  updated entry, its ancestor routes and the update. Entries may hold any number of routes, several of them on one face,
  with any flags. `FibRuns.StepIsExact` and `RunIsExact` lift this to whole updates and runs. `FibGaps` shows concrete
  consistent states in which an update leaves one name and face wrong, and what becomes of a face with several routes.
  What an entry captures is what its counter answers, as in the code; `CaptureCounter` says when the counter tells the
  truth, and `FibRuns.CountedStepIsExact` joins the two.
* **Sending and queueing** (`SendProtocol`, `Engine`). The two-phase exchange with the forwarder, with answers in any
  order, timeouts and refusals, and the FIFO update queue around it, as state machines; `Engine.DamageIsLocal` joins
  them with the step theorem.
* **Names, Exclude and Interest** (`Components`, `Names`, `Exclude`, `ExcludeApi`, `Interest`). The canonical order and
  its memcmp form, the interval set behind the Exclude selector, Interest matching and the two packet formats. The
  order is the one of the NDN Packet Format Specification, section "Name", subsection "Canonical Order".
* **Smaller cores** (`Propagator`, `Network`, `Rtt`). The table of propagated prefixes, CIDR ranges (section 3.1 of
  RFC 4632), and the RTT estimator.

A FIB is a map from (name, face) to cost. An inherited-route record is kept per (name, face), as the code looks it up.
Code that updates fields or loops over local variables is a class or a method proved against a specification function;
the lemmas are about those functions. Every lemma turns automatic induction off, so each proof is the one written out.

Where the code differs from its documentation the model follows the code: `Exclude::excludeRange` can shrink an
existing range (`Exclude.RangeIsUnion` gives the exact condition), a retry after a timeout always sends an addition
(`SendProtocol.SuccessReflects`), and the capture counter ignores overwrites (`CaptureCounter.StepKeepsCounters`).

## Model

| member | source | states |
|---|---|---|
| `FibSteps.PointIsExact` | NFD-NFD-0.6.3/rib/fib-updater.cpp:92-186 | On any RIB with exact inherited records, after one register or unregister on which the updater is defined (`DefinedExact`), the FIB and the record at any name and face are the from-scratch ones if and only if `PointOk`: explicit guards at the updated entry (`SelfOk`), and guards on what is pushed below (`BelowOk`) for entries in reach without an own route on the face |
| `FibSteps.AllRightIsKeeps` | NFD-NFD-0.6.3/rib/fib-updater.cpp:92-186 | Wherever the updater is defined, all names and faces are right at once if and only if `Keeps`: the guards at the entry on every face, and those below on faces some entry below takes from it |
| `FibRuns.StepIsExact` | NFD-NFD-0.6.3/rib/fib-updater.cpp:92-186 | From any state whose FIB and records are the from-scratch ones, with any number of routes and any flags, one register or unregister on which the updater is defined leads to such a state if and only if `Keeps` holds |
| `FibRuns.RunIsExact` | NFD-NFD-0.6.3/rib/fib-updater.cpp:48-186 | In a whole run every state has the from-scratch FIB and records if and only if every step meets `Keeps` |
| `FibRuns.CountedStepIsExact` | NFD-NFD-0.6.3/rib/rib.cpp:85-160 | With exact capture counters: FIB, records and counters stay exact if and only if `Keeps` holds and no overwrite changes a capture flag; then an entry captures exactly when one of its routes does |
| `FibRuns.EverydayKeeps` | NFD-NFD-0.6.3/rib/fib-updater.cpp:376-635 | With one route per name, fresh registrations with any flags, cost changes, ChildInherit toggles on non-capturing routes and erasing non-capturing routes all meet `Keeps` |
| `FibRuns.EverydayRuns` | NFD-NFD-0.6.3/rib/fib-updater.cpp:313-714 | Every run of such updates from an empty RIB keeps FIB, inherited faces and capture counters exact |
| `FibRuns.OrderDoesNotMatter` | NFD-NFD-0.6.3/rib/fib-updater.cpp:376-421 | Registering the same (name, route) pairs, any flags, in two orders ends in the same RIB, records and FIB |
| `FibRuns.SameRoutesSameState` | NFD-NFD-0.6.3/rib/rib.cpp:293-339 | Two consistent states with the same routes are equal: the from-scratch definition determines everything else |
| `FibSteps.DefinedExact` | NFD-NFD-0.6.3/rib/fib-updater.cpp:476-487 | On any RIB an overwrite dereferences a missing route if and only if the overwritten route was strictly the cheapest on its face, becomes dearer than another there, and no route on the face inherits |
| `FibSteps.DefinedWhenOneRoutePerFace` | NFD-NFD-0.6.3/rib/fib-updater.cpp:476-487 | Derived: it never happens on entries with one route per face, nor to anything but an overwrite |
| `FibGaps.MissingRouteReached` | NFD-NFD-0.6.3/rib/fib-updater.cpp:483-487 | A concrete consistent state and an overwrite on which it happens |
| `FibSteps.NewEntryExact` | NFD-NFD-0.6.3/rib/fib-updater.cpp:376-421 | Registering a new name leaves every name and face right, whatever the flags |
| `FibSteps.NewRouteSelf` | NFD-NFD-0.6.3/rib/fib-updater.cpp:423-460 | A further route leaves its entry right on a face if and only if it does not take over an inherited face without turning capture on |
| `FibSteps.NewRouteExact` | NFD-NFD-0.6.3/rib/fib-updater.cpp:423-460 | A further route leaves an entry in reach below right if and only if, on a face already passed down, either a cheaper inheriting route costs what the first one does or capture withdraws nothing |
| `FibSteps.UpdatedSelf` | NFD-NFD-0.6.3/rib/fib-updater.cpp:462-559 | An overwrite leaves its entry right if and only if a route that was cheapest leaves an inheriting one as the cheapest, and a capture change meets no ancestor route that the stale counter would treat the other way |
| `FibSteps.UpdatedRouteExact` | NFD-NFD-0.6.3/rib/fib-updater.cpp:462-559 | An overwrite leaves an entry in reach below right if and only if what the cost, ChildInherit and Capture parts push costs what the first inheriting route then costs, with the exact cases for ancestor routes and capture toggles |
| `FibSteps.ErasedSelf` | NFD-NFD-0.6.3/rib/fib-updater.cpp:561-635 | An erasure leaves its entry right if and only if, when other routes stay on the face, the second cheapest costs what the cheapest left does and no ancestor route is handed back over it |
| `FibSteps.ErasedRouteExact` | NFD-NFD-0.6.3/rib/fib-updater.cpp:561-635 | An erasure leaves an entry in reach below right if and only if what is sent again or handed back costs what the first inheriting route left costs, with the exact cases for the last route and for capture |
| `FibSteps.RemoveFaceIsExact` | NFD-NFD-0.6.3/rib/fib-updater.cpp:81-87 | Removing a face: on every other face the FIB and the record are the from-scratch ones exactly when an unregistration would leave them so; on the removed face nothing is sent, and the records are right where an unregistration leaves them right |
| `FibTheory.FaceGone` | NFD-NFD-0.6.3/rib/rib.cpp:353-366 | Once no entry has a route on a face, the from-scratch FIB and records hold nothing on it |
| `FibTheory.DescendantStep` | NFD-NFD-0.6.3/rib/fib-updater.cpp:647-692 | An entry below is right after an effect if and only if it is out of reach, has its own route, or is left with what the changed entry passes down |
| `FibTheory.ThenPushed` | NFD-NFD-0.6.3/rib/fib-updater.cpp:647-692 | How a further traversal changes what the reached entries are left with |
| `FibTheory.AncestorFrame` | NFD-NFD-0.6.3/rib/rib.cpp:293-339 | A change at one name does not alter the ancestor routes of names it cannot reach |
| `FibTheory.SecondExists` | NFD-NFD-0.6.3/rib/rib-entry.cpp:194-215 | A second-cheapest route exists exactly when a route is left on the erased route's face |
| `FibTheory.SecondCost` | NFD-NFD-0.6.3/rib/rib-entry.cpp:194-215 | It never costs less than the cheapest route left, and costs the same if the erased route was a cheapest one |
| `FibGaps.ScratchIsConsistent` | NFD-NFD-0.6.3/rib/rib.cpp:293-339 | Every RIB has a consistent state with the same routes |
| `FibGaps.ErasedCaptureBreaks` | NFD-NFD-0.6.3/rib/fib-updater.cpp:575-602 | Concrete consistent state: after erasing the last, capturing route the entry below is wrong on the face of the ancestor route |
| `FibGaps.InheritedFaceBreaks` | NFD-NFD-0.6.3/rib/fib-updater.cpp:423-460 | Concrete consistent state: after a second route on an inherited face the entry is wrong on that face |
| `FibGaps.ToggledCaptureBreaks` | NFD-NFD-0.6.3/rib/rib.cpp:107-120 | Concrete consistent state: after an overwrite that sets the capture flag the entry is wrong on the face it inherited |
| `FibGaps.ClearedInheritBreaks` | NFD-NFD-0.6.3/rib/fib-updater.cpp:515-538 | Concrete consistent state: after clearing ChildInherit on a capturing entry the entry below is wrong on the face of the blocked ancestor route |
| `FibGaps.ChangedFlagBreaks` | NFD-NFD-0.6.3/rib/fib-updater.cpp:489-503 | Concrete consistent state: after a cost change together with another flag bit the entry below is wrong on the inherited face |
| `FibGaps.CaptureTurnedOnBreaks` | NFD-NFD-0.6.3/rib/fib-updater.cpp:441-450 | Concrete consistent state: after turning capture on the entry below is wrong on a face the entry itself passes down |
| `FibGaps.SecondOriginExact` | NFD-NFD-0.6.3/rib/fib-updater.cpp:146-186 | In any RIB, for any number of routes and any flags: when other routes stay on the erased route's face, the FIB keeps the cheapest of them if and only if the second-cheapest route costs the same or an ancestor route of that cost is handed back; and exactly when the entry gets an inherited record on its own face |
| `FibGaps.SecondOriginBreaks` | NFD-NFD-0.6.3/rib/fib-updater.cpp:146-186 | An instance: erasing the dearer of two routes on a face no ancestor passes down leaves the FIB without the cheaper one, whatever it held before |
| `CaptureCounter.StepKeepsCounters` | NFD-NFD-0.6.3/rib/rib-entry.cpp:48-63 | Exact capture counters stay exact over a RIB change if and only if an overwrite keeps the capture bit |
| `CaptureCounter.RunKeepsCounters` | NFD-NFD-0.6.3/rib/rib-entry.cpp:110-157 | In every run whose overwrites keep the bit, an entry reports capture exactly when one of its routes captures, with any number of routes per name |
| `Ribs.Rib.constructor` | NFD-NFD-0.6.3/rib/rib.cpp:48-52 | The empty RIB satisfies the invariant |
| `Ribs.Rib.Insert` | NFD-NFD-0.6.3/rib/rib.cpp:85-160 | Afterwards a route is under a name exactly if it is the inserted pair, or was there and does not share name, face and origin with it; a known route is overwritten in its place, a new one goes to the end, and no other entry changes. The invariant is kept: no two routes of an entry share face and origin, parent is the longest proper prefix in the table, child lists are exact and without repeats, the face table lists exactly the entries with a route on the face, `nItems` is the number of routes |
| `Ribs.Rib.Erase` | NFD-NFD-0.6.3/rib/rib.cpp:162-190 | Afterwards a route is under a name exactly if it was there and does not share name, face and origin with the given one; the order of the others is kept, an entry left without routes is unlinked, and the same invariant is kept |
| `RibLaws.RegisterLaw` | NFD-NFD-0.6.3/rib/rib.cpp:85-160 | The lookup law of registering, for every name and route, on values: what the step theorems build on is what `Rib.Insert` does |
| `RibLaws.UnregisterLaw` | NFD-NFD-0.6.3/rib/rib.cpp:162-190 | The lookup law of unregistering; the name goes exactly with its last route |
| `RibLaws.FirstIsFirst` | NFD-NFD-0.6.3/rib/rib.cpp:293-339 | The route an entry passes down on a face is the child-inheriting one at the lowest position, whatever it costs |
| `RibLaws.AncestorIsNearest` | NFD-NFD-0.6.3/rib/rib.cpp:293-339 | A route is the from-scratch ancestor route if and only if some strict prefix passes it down and no nearer prefix passes one down on that face or captures |
| `RibLaws.CheapestIsFirst` | NFD-NFD-0.6.3/rib/rib-entry.cpp:171-239 | The lowest-cost query finds the earliest of the cheapest candidates |
| `RibLaws.SecondIsCheapestOfRest` | NFD-NFD-0.6.3/rib/rib-entry.cpp:194-215 | The second-cheapest route is a cheapest one once one cheapest route is taken away, repeats counted |
| `RibLaws.WantMeans` | NFD-NFD-0.6.3/rib/fib-updater.cpp:92-186 | The from-scratch FIB without its definition: the least own cost on an own face; on another face nothing under capture, else what the ancestor route costs |
| `Ribs.LinkEntry` | NFD-NFD-0.6.3/rib/rib.cpp:122-151 | Linking a new name into a correct tree gives a correct tree and changes no routes |
| `Ribs.UnlinkEntry` | NFD-NFD-0.6.3/rib/rib.cpp:253-291 | Handing an entry's children to its parent leaves a correct tree without the entry |
| `Ribs.FindDescendants` | NFD-NFD-0.6.3/rib/rib.cpp:218-237 | The early-stopping ordered scan returns, once each, exactly the strict descendants in the table |
| `Ribs.Rib.ModifyInheritedRoutes` | NFD-NFD-0.6.3/rib/rib.cpp:464-483 | Replaying the records leaves, per name and face, the last record or the old one; an inherited route is stored exactly if the last record for its name and face registers it or it was there and no record names them; the RIB invariant is kept |
| `Ribs.Rib.FindRoutesWithFaceId` | NFD-NFD-0.6.3/rib/rib.cpp:485-507 | As a set exactly the routes on the face: complete and sound; as a list, the routes of each listed entry in order, so an entry listed twice contributes twice |
| `RibTree.ChildrenAreKids` | NFD-NFD-0.6.3/rib/rib-entry.cpp:94-108 | In a correct tree a child list holds exactly the nearest descendants in the table |
| `RibTree.KidsOfNewName` | NFD-NFD-0.6.3/rib/fib-updater.cpp:126-143 | For a name outside the table, its future children are exactly the descendants that share its parent |
| `RibQueries.FindParent` | NFD-NFD-0.6.3/rib/rib.cpp:205-216 | The loop over shorter prefixes finds the longest proper prefix in the table, or none |
| `RibQueries.GetAncestorRoutes` | NFD-NFD-0.6.3/rib/rib.cpp:293-339 | The climb along parent links collects, per face, the from-scratch ancestor route |
| `RibQueries.LowestCostRoute` | NFD-NFD-0.6.3/rib/rib-entry.cpp:171-239 | The candidate loop returns the earliest cheapest route on the face, child-inheriting if asked |
| `RibQueries.FindDescendantsForNonInsertedName` | NFD-NFD-0.6.3/rib/rib.cpp:239-251 | The full scan returns, once each, exactly the names under the prefix |
| `RibQueries.FindAdoptees` | NFD-NFD-0.6.3/rib/fib-updater.cpp:126-143 | The children a new name is given are exactly the entries it becomes the parent of |
| `FibUpdaters.FibUpdater.AddFibUpdate` | NFD-NFD-0.6.3/rib/fib-updater.cpp:313-334 | An update replaces the one for its name and face in the list of its face, and no other |
| `FibUpdaters.FibUpdater.TraverseSubTree` | NFD-NFD-0.6.3/rib/fib-updater.cpp:647-692 | The recursive walk that erases from its route sets has, on every name and face, exactly the effect `Pushed` describes without a walk |
| `FibUpdaters.FibUpdater.ModifyChildrensInheritedRoutes` | NFD-NFD-0.6.3/rib/fib-updater.cpp:637-645 | Walking all children has that effect on everything below the entry |
| `FibUpdaters.FibUpdater.CreateFibUpdatesForNewRibEntry` | NFD-NFD-0.6.3/rib/fib-updater.cpp:376-421 | The lists gain, per name and face, exactly what the specification emits for a new name |
| `FibUpdaters.FibUpdater.CreateFibUpdatesForNewRoute` | NFD-NFD-0.6.3/rib/fib-updater.cpp:423-460 | The same for a further route of an entry |
| `FibUpdaters.FibUpdater.CreateFibUpdatesForUpdatedRoute` | NFD-NFD-0.6.3/rib/fib-updater.cpp:462-559 | The same for an overwritten route: cost, ChildInherit and Capture parts in sequence |
| `FibUpdaters.FibUpdater.CreateFibUpdatesForErasedRoute` | NFD-NFD-0.6.3/rib/fib-updater.cpp:561-627 | The same for an erased route |
| `FibUpdaters.FibUpdater.CreateFibUpdatesForErasedRibEntry` | NFD-NFD-0.6.3/rib/fib-updater.cpp:629-635 | The same for the inherited routes of a vanishing entry |
| `FibUpdaters.FibUpdater.ComputeUpdatesForRegistration` | NFD-NFD-0.6.3/rib/fib-updater.cpp:92-143 | After a registration the lists are exactly `Emitted`, on every name and face |
| `FibUpdaters.FibUpdater.ComputeUpdatesForUnregistration` | NFD-NFD-0.6.3/rib/fib-updater.cpp:146-186 | The same for an unregistration, including the second-cheapest route |
| `FibUpdaters.FibUpdater.ComputeUpdates` | NFD-NFD-0.6.3/rib/fib-updater.cpp:48-90 | For every update on which the updater is defined, on every valid RIB, the lists are exactly `Emitted`; keys are unique and each update stands in the list of its face; for a face being removed that list is empty |
| `RibUpdates.OnFibUpdateSuccess` | NFD-NFD-0.6.3/rib/rib.cpp:420-448 | Inserting or erasing and then replaying the records is one `RibStep`; every record names an entry |
| `RibUpdates.ApplyUpdate` | NFD-NFD-0.6.3/rib/rib.cpp:341-448 | End to end on the objects: one `RibStep` and one `FibStep`, and consistency is kept if and only if `Keeps`; removing a face leaves the FIB on that face alone |
| `SendProtocol.StartOk` | NFD-NFD-0.6.3/rib/fib-updater.cpp:188-230 | The exchange starts in a state that satisfies the invariant |
| `SendProtocol.RespondOk` | NFD-NFD-0.6.3/rib/fib-updater.cpp:261-310 | Every answer that does not refuse a batch-face update keeps it: no other face's command before the batch face is done, success at most once and only with both lists empty, no update sent more than eleven times, the FIB settled on acknowledged updates |
| `SendProtocol.WorkDecreases` | NFD-NFD-0.6.3/rib/fib-updater.cpp:261-310 | Every such answer decreases the remaining work |
| `SendProtocol.ExchangeOk` | NFD-NFD-0.6.3/rib/fib-updater.cpp:188-310 | The invariant holds at every state of every exchange, and answers plus remaining work are bounded from the start |
| `SendProtocol.ExchangeIsShort` | NFD-NFD-0.6.3/rib/fib-updater.cpp:282-310 | An exchange has at most eleven answers per update |
| `SendProtocol.SuccessReflects` | NFD-NFD-0.6.3/rib/fib-updater.cpp:282-310 | When success is reported the FIB reflects every update not dropped by a refusal, and is unchanged elsewhere, if and only if no removal that was carried through had timed out |
| `SendProtocol.EachRefusalFails` | NFD-NFD-0.6.3/rib/fib-updater.cpp:295-297 | With answers of any kind in any order, the failures reported are as many as the batch-face commands refused |
| `SendProtocol.RefusalBlocksSuccess` | NFD-NFD-0.6.3/rib/fib-updater.cpp:261-303 | Once a batch-face command has been refused, success is never reported, whatever else is answered: the refused update stays in the batch list |
| `SendProtocol.NothingSentToFace` | NFD-NFD-0.6.3/rib/fib-updater.cpp:188-310 | An exchange that starts with an empty batch list, as one for a removed face does, never sends a command for the batch face, whatever is answered |
| `SendProtocol.TimeoutRetries` | NFD-NFD-0.6.3/rib/fib-updater.cpp:282-294 | A command that timed out fewer than ten times is sent again, as an addition with the same cost and its count raised by one; nothing else is sent, reported or removed |
| `SendProtocol.HaltsExactly` | NFD-NFD-0.6.3/rib/fib-updater.cpp:282-311 | The updater stops exactly at a timeout after ten retries or an error other than a missing face |
| `SendProtocol.RemovalBecomesNextHop` | NFD-NFD-0.6.3/rib/fib-updater.cpp:292-294 | When success is reported, a removal that timed out and was not dropped stands in the FIB as a next hop of cost 0 |
| `Engine.QueueIsFifo` | NFD-NFD-0.6.3/rib/rib.cpp:341-462 | In every interleaving: one batch in flight, updates reach the RIB in the order they were enqueued, each applied batch has run its own callback exactly once |
| `Engine.RibFollowsQueue` | NFD-NFD-0.6.3/rib/rib.cpp:341-462 | In every interleaving the enqueued updates are the applied ones, the batch in progress and the queue, in that order; the RIB holds exactly the routes the applied ones make, one after another, and their callbacks are the ones run |
| `Engine.DamageIsLocal` | NFD-NFD-0.6.3/rib/rib.cpp:380-448 | In every interleaving whose launched updates meet `Keeps`, with refusals on other faces and timeouts of anything: whenever no batch is in progress every inherited record is exact, and FIB and RIB differ only where the latest update was dropped or was a removal that timed out |
| `Engine.FibFollowsRib` | NFD-NFD-0.6.3/rib/rib.cpp:380-448 | Derived: without refusals and timed-out removals, FIB and RIB are consistent whenever no batch is in progress |
| `Components.WireIsCanonical` | ndn-cxx-063/src/name-component.cpp:354-363 | memcmp over the shorter wire length has the sign of the canonical order and is zero only for equal components |
| `Components.FieldsAreCanonical` | ndn-cxx-063/src/name-component.cpp:365-377 | The field-wise branch returns the canonical difference if and only if the deciding difference fits an `int` |
| `Components.VarNumberOrder` | ndn-cxx-063/src/name-component.cpp:395-405 | VAR-NUMBER encoding is order-preserving and prefix-free |
| `Components.CompareFlip` | ndn-cxx-063/src/name-component.cpp:354-377 | The canonical order is antisymmetric and zero only on equal components |
| `Components.CompareTransitive` | ndn-cxx-063/src/name-component.cpp:354-377 | The canonical order is transitive |
| `Components.OrderDecidedBy` | ndn-cxx-063/src/name-component.cpp:365-371 | The smaller type comes first; with equal types the shorter value |
| `Components.FirstByteDecides` | ndn-cxx-063/src/name-component.cpp:373-377 | With equal types and lengths the first byte that differs decides |
| `Components.VarNumberReads` | ndn-cxx-063/src/name-component.cpp:395-405 | A reader that goes by the first byte reads the number back, whatever follows it |
| `Components.VarNumberIsShortest` | ndn-cxx-063/src/name-component.cpp:395-405 | No byte string that reads as the same number is shorter |
| `Names.CompareScan` | ndn-cxx-063/src/name.cpp:281-296 | The component loop computes the canonical name order |
| `Names.PrefixScan` | ndn-cxx-063/src/name.cpp:251-265 | The component loop decides the prefix relation |
| `Names.NameLessTransitive` | ndn-cxx-063/src/name.cpp:281-296 | The name order is transitive |
| `Names.CompareNamesFlip` | ndn-cxx-063/src/name.cpp:281-296 | The name order is antisymmetric and zero only on equal names |
| `Names.FirstDifferenceDecides` | ndn-cxx-063/src/name.cpp:281-296 | Behind a common prefix the first component that differs decides, whatever follows: the names compare as those two components do |
| `Names.PrefixComesFirst` | ndn-cxx-063/src/name.cpp:281-296 | A proper prefix comes first |
| `Names.DescendantsAreContiguous` | ndn-cxx-063/src/name.cpp:251-296 | Between a name and one of its extensions the order holds only further extensions |
| `Exclude.RangeAt` | ndn-cxx-063/src/exclude.cpp:273-307 | Component by component: after `excludeRange` exactly the range and what was excluded and is not cut off |
| `Exclude.RangeIsUnion` | ndn-cxx-063/src/exclude.cpp:255-307 | [from, to] is excluded, nothing outside old set and [from, to] is, and it is exactly their union if and only if nothing is cut off |
| `Exclude.UnionTest` | ndn-cxx-063/src/exclude.cpp:273-307 | An exact test before the call: the set becomes the union if and only if it is not so that one existing range holds both ends and a component lies above `to` in it |
| `Exclude.CutOffFound` | ndn-cxx-063/src/exclude.cpp:295-296 | When the test fails, the successor of `to` is cut off; otherwise nothing is |
| `Exclude.SuccessorIsNext` | ndn-cxx-063/src/name-component.cpp:354-377 | Nothing lies between a component and its successor in the canonical order |
| `Exclude.OneIsUnion` | ndn-cxx-063/src/exclude.cpp:239-247 | `excludeOne` adds exactly its component |
| `Exclude.AfterIsUnion` | ndn-cxx-063/src/exclude.cpp:309-329 | `excludeAfter` adds exactly the components from its argument on |
| `ExcludeApi.PerformIsUnion` | ndn-cxx-063/src/exclude.cpp:239-329 | Any one call adds what it denotes and keeps the rest if and only if it cuts nothing off |
| `ExcludeApi.CallsAreUnion` | ndn-cxx-063/src/exclude.cpp:239-329 | After any calls that cut nothing off, the excluded set is the union of what the calls denote |
| `ExcludeApi.CallsAreSound` | ndn-cxx-063/src/exclude.cpp:239-329 | After any calls at all, nothing is excluded that no call denotes |
| `ExcludeApi.PerformNormal` | ndn-cxx-063/src/exclude.cpp:273-329 | A call keeps the form without adjacent ANY entries if and only if it does not start a range at the upper end of another |
| `ExcludeApi.PerformNegInf` | ndn-cxx-063/src/exclude.cpp:239-329 | Negative infinity always carries ANY |
| `ExcludeApi.Enumerate` | ndn-cxx-063/src/exclude.cpp:373-432 | Iteration yields ascending, pairwise disjoint ranges whose union is the excluded set |
| `ExcludeApi.WireEncode` | ndn-cxx-063/src/exclude.cpp:120-145 | Prepending in descending order writes the elements in ascending order; an empty Exclude is refused |
| `ExcludeApi.WrittenInOrder` | ndn-cxx-063/src/exclude.cpp:120-145 | The elements written are the components of the list in ascending order, each followed by ANY exactly if it carries it; negative infinity is an ANY in front |
| `ExcludeApi.DecodesExactly` | ndn-cxx-063/src/exclude.cpp:165-219 | Decoding accepts exactly the non-empty lists whose components are generic or implicit digests and in which no ANY follows an ANY |
| `ExcludeApi.DecodesToMentions` | ndn-cxx-063/src/exclude.cpp:165-219 | What is decoded is sorted and holds each component once, as its first mention says, and negative infinity exactly if the list starts with ANY |
| `ExcludeApi.RoundTrip` | ndn-cxx-063/src/exclude.cpp:165-219 | Decoding the encoded elements restores the list if and only if negative infinity carries ANY |
| `ExcludeApi.CallsRoundTrip` | ndn-cxx-063/src/exclude.cpp:120-219 | Everything the calls can build from generic and digest components survives encoding and decoding |
| `ExcludeApi.Selector.constructor` | ndn-cxx-063/src/exclude.cpp:113-113 | A new selector excludes nothing and satisfies the invariant |
| `ExcludeApi.Selector.Excludes` | ndn-cxx-063/src/exclude.cpp:230-237 | The lower-bound lookup decides membership |
| `ExcludeApi.Selector.AddOne` | ndn-cxx-063/src/exclude.cpp:239-247 | In place: the list becomes the specified one and the set gains exactly the component |
| `ExcludeApi.Selector.AddRange` | ndn-cxx-063/src/exclude.cpp:255-307 | In place: a range with ends out of order is refused, otherwise the list becomes the specified one, with both inclusions of the set |
| `ExcludeApi.Selector.AddAfter` | ndn-cxx-063/src/exclude.cpp:309-329 | In place: the list becomes the specified one and the set gains exactly the components from the argument on |
| `Interests.DataMatchIsNameMatch` | ndn-cxx-063/src/interest.cpp:425-534 | `matchesData` equals `matchesName` of the full name and the publisher check, although it avoids computing the digest |
| `Interests.PrefixMatches` | ndn-cxx-063/src/interest.cpp:425-450 | Without selectors an Interest matches exactly the names under its own |
| `Interests.PrefixMatchesData` | ndn-cxx-063/src/interest.cpp:452-534 | Without selectors it matches exactly the Data whose name is under its own or whose full name is its own |
| `Interests.SuffixBounds` | ndn-cxx-063/src/interest.cpp:434-442 | A lower or upper bound on the suffix takes away exactly the names that break it |
| `Interests.ExcludeFilters` | ndn-cxx-063/src/interest.cpp:444-447 | An Exclude call that cuts nothing off takes away exactly the names whose next component it denotes |
| `Interests.PublisherFilters` | ndn-cxx-063/src/interest.cpp:519-531 | A publisher takes away exactly the Data with another key locator or none |
| `Interests.SelectorsRoundTrip` | ndn-cxx-063/src/selectors.cpp:59-179 | Decoding encoded selectors restores all six fields |
| `Interests.SelectorsWritten` | ndn-cxx-063/src/selectors.cpp:59-112 | A selector is written exactly if it is set, with its value |
| `Interests.SelectorsInOrder` | ndn-cxx-063/src/selectors.cpp:59-112 | Selectors are written in the order of their types, once each |
| `Interests.SortSorts` | ndn-cxx-063/src/delegation-list.cpp:159-173 | Sorting yields a sorted permutation of the given delegations and leaves a sorted list alone |
| `Interests.SortedMeans` | ndn-cxx-063/src/delegation.cpp:35-40 | In a sorted list preferences ascend, and names where preferences are equal |
| `Interests.RoundTrip02` | ndn-cxx-063/src/interest.cpp:94-293 | Without Parameters the decoder takes the v0.2 branch and restores every field, each named in the clause |
| `Interests.RoundTrip03` | ndn-cxx-063/src/interest.cpp:139-413 | With Parameters and a non-empty name the v0.2 decoder steps aside and the v0.3 decoder restores name, CanBePrefix, MustBeFresh, hint (sorted), nonce, lifetime and Parameters |
| `Interests.Written02` | ndn-cxx-063/src/interest.cpp:94-137 | The v0.2 packet element by element, with what is left out when it is the default |
| `Interests.Written03` | ndn-cxx-063/src/interest.cpp:139-197 | The v0.3 packet element by element |
| `Interests.Accepts02` | ndn-cxx-063/src/interest.cpp:237-293 | The v0.2 decoder accepts exactly name, optional selectors, a nonce of four bytes, optional lifetime and an optional hint that is not empty, with nothing else, and reads every field from its place |
| `Interests.Accepts03` | ndn-cxx-063/src/interest.cpp:295-413 | The v0.3 decoder accepts exactly the packets whose every element stands in order, is unknown and not critical, or comes late where that is tolerated, with its value well-formed; any other is malformed |
| `Interests.DecodeAccepts` | ndn-cxx-063/src/interest.cpp:217-235 | A packet is accepted in v0.2 form, or if that steps aside and it has a name and v0.3 form |
| `Propagator.GetPrefixPropagationParameters` | NFD-NFD-0.6.3/rib/auto-prefix-propagator.cpp:124-155 | The loop finds the first identity with the shortest stripped prefix of the name, or none |
| `Propagator.ChoiceIsFirstShortest` | NFD-NFD-0.6.3/rib/auto-prefix-propagator.cpp:124-155 | The chosen identity is the prefix with a component "nrd" behind it, or the prefix itself if that does not end in one; no identity stands so for a shorter prefix of the name, and none before it in the key chain for one as short |
| `Propagator.ChoiceExists` | NFD-NFD-0.6.3/rib/auto-prefix-propagator.cpp:124-155 | There is a choice if and only if some identity stands so for a prefix of the name |
| `Propagator.SameChoice` | NFD-NFD-0.6.3/rib/auto-prefix-propagator.cpp:124-155 | All names under a chosen prefix get the same choice |
| `Propagator.TableFollowsRib` | NFD-NFD-0.6.3/rib/auto-prefix-propagator.cpp:157-235 | The table's keys equal the image of the propagatable RIB names in every run if and only if no stripped identity is "/", "/localhop" or "/localhop/nfd" |
| `Propagator.KeyMeansPresent` | NFD-NFD-0.6.3/rib/auto-prefix-propagator.cpp:157-235 | For such a key chain, a prefix is in the table after any run if and only if some name that was inserted and not erased since, outside "/localhost" and other than "/localhop/nfd", has it as its choice |
| `Propagator.NamesArePresent` | NFD-NFD-0.6.3/rib/auto-prefix-propagator.cpp:157-235 | The names of a run are those inserted and not erased since |
| `Propagator.MixedPrefixLingers` | NFD-NFD-0.6.3/rib/auto-prefix-propagator.cpp:223-235 | For any other key chain, a run of three events leaves a key that no propagatable name needs |
| `Propagator.AutoPrefixPropagator.constructor` | NFD-NFD-0.6.3/rib/auto-prefix-propagator.cpp:53-64 | The table starts empty and valid, without a hub and with nothing sent |
| `Propagator.AutoPrefixPropagator.AfterInsertRibEntry` | NFD-NFD-0.6.3/rib/auto-prefix-propagator.cpp:157-194 | The keys become those of the set-level event; a hub prefix redoes and advertises every propagation, any other leaves old entries alone and advertises a new one if a hub is connected |
| `Propagator.AutoPrefixPropagator.AfterRibInsert` | NFD-NFD-0.6.3/rib/auto-prefix-propagator.cpp:310-328 | Adds the chosen prefix with its identity, advertising it exactly when a hub is connected |
| `Propagator.AutoPrefixPropagator.AfterEraseRibEntry` | NFD-NFD-0.6.3/rib/auto-prefix-propagator.cpp:196-235 | The keys become those of the set-level event; losing the hub resets every entry, anything else leaves the remaining entries alone; a dropped prefix is withdrawn exactly when it was propagated and a hub is connected |
| `Propagator.AutoPrefixPropagator.EraseNamed` | NFD-NFD-0.6.3/rib/auto-prefix-propagator.cpp:211-235 | For an ordinary name: the chosen prefix is dropped exactly when no other name needs it |
| `Propagator.AutoPrefixPropagator.AfterRibErase` | NFD-NFD-0.6.3/rib/auto-prefix-propagator.cpp:330-353 | Drops the chosen prefix, withdrawing it exactly when it was propagated and a hub is connected |
| `Propagator.AutoPrefixPropagator.RedoPropagation` | NFD-NFD-0.6.3/rib/auto-prefix-propagator.cpp:252-273 | With a fixed key chain a prefix in the table always still works: refresh and retry advertise it again and never drop a key |
| `Propagator.AutoPrefixPropagator.AfterHubConnect` | NFD-NFD-0.6.3/rib/auto-prefix-propagator.cpp:355-376 | Exactly the listed entries are set to propagating and advertised, in order, and no key is dropped |
| `Propagator.AutoPrefixPropagator.AfterHubDisconnect` | NFD-NFD-0.6.3/rib/auto-prefix-propagator.cpp:378-386 | Every entry is reset and no key is dropped |
| `Propagator.AutoPrefixPropagator.AfterPropagateSucceed` | NFD-NFD-0.6.3/rib/auto-prefix-propagator.cpp:388-406 | Marks the entry propagated, or withdraws a prefix that was dropped in the meantime; nothing else changes |
| `Propagator.AutoPrefixPropagator.AfterPropagateFail` | NFD-NFD-0.6.3/rib/auto-prefix-propagator.cpp:408-428 | Marks the entry failed if it is still there; nothing is sent |
| `Propagator.AutoPrefixPropagator.AfterRevokeSucceed` | NFD-NFD-0.6.3/rib/auto-prefix-propagator.cpp:430-449 | Advertises a prefix that came back in the meantime, unless its own propagation failed; nothing else changes |
| `Network.RangeIsPrefix` | NFD-NFD-0.6.3/core/network.hpp:41-45 | An address lies in the built range, in byte-lexicographic order, if and only if its first n bits agree |
| `Network.BuildRange` | NFD-NFD-0.6.3/core/network.cpp:126-175 | The arrays filled by the loops are the specified ends; a prefix length beyond the address is refused |
| `Network.BuildMask` | NFD-NFD-0.6.3/core/network.cpp:132-137 | Setting bits one at a time builds the mask with the first n bits set |
| `Rtt.RunBounds` | NFD-NFD-0.6.3/core/rtt-estimator.cpp:41-58 | In every run with samples in [lo, hi] the estimate stays in [lo, hi] and the variance in [0, hi] |
| `Rtt.MultiplierStays` | NFD-NFD-0.6.3/core/rtt-estimator.cpp:60-70 | The 16-bit multiplier stays in [1, maxMultiplier] in every run if and only if maxMultiplier is at most 32767 |
| `Rtt.RunRto` | NFD-NFD-0.6.3/core/rtt-estimator.cpp:72-78 | After any run with a sample the untruncated timeout lies between multiplier times max(minRto, lo) and multiplier times max(minRto, 5 hi) |
| `Rtt.SamplePair` | NFD-NFD-0.6.3/core/rtt-estimator.cpp:41-78 | Exact estimate, variance and timeout after one sample and after two |
| `Rtt.BackOff` | NFD-NFD-0.6.3/core/rtt-estimator.cpp:57-70 | A sample resets the multiplier, a timeout raises it by one or doubles it up to the maximum |
| `Rtt.TimeoutScales` | NFD-NFD-0.6.3/core/rtt-estimator.cpp:72-78 | The timeout value is proportional to the multiplier |
| `Rtt.InitialTimeout` | NFD-NFD-0.6.3/core/rtt-estimator.cpp:30-39 | Before any sample the timeout is one second, or the floor if that is more |
| `Rtt.RttEstimator.constructor` | NFD-NFD-0.6.3/core/rtt-estimator.cpp:30-39 | The estimator starts in the initial state of the runs |
| `Rtt.RttEstimator.AddMeasurement` | NFD-NFD-0.6.3/core/rtt-estimator.cpp:41-58 | The incremental update is the weighted mean of old estimate and sample; the first sample replaces both |
| `Rtt.RttEstimator.IncrementMultiplier` | NFD-NFD-0.6.3/core/rtt-estimator.cpp:60-64 | One step of the runs, with 16-bit wrap-around |
| `Rtt.RttEstimator.DoubleMultiplier` | NFD-NFD-0.6.3/core/rtt-estimator.cpp:66-70 | One step of the runs, with 16-bit wrap-around |
| `Rtt.RttEstimator.ComputeRto` | NFD-NFD-0.6.3/core/rtt-estimator.cpp:72-78 | Returns the timeout the bounds speak of, before truncation |

## Left out

- RIB entries are values in a map and their parent and child links are names: sharing of entry objects is not captured.
- REMOVE_FACE: the FIB on the removed face itself is left to the forwarder, which is expected to drop it; `RibUpdates.ApplyUpdate` leaves it as it was.
- FibRuns.StepIsExact: supposes that the branch with an unchecked dereference is not entered with a missing route; what happens there is not modelled. `FibSteps.DefinedExact` says exactly when it is entered so.
- RibQueries.LowestCostRoute: covers both lowest-cost queries; the second-lowest query is a function that takes the earliest route among equal costs, where `std::nth_element` may take any.
- The capture counter wraps below zero at 64 bits on erasure; its growth above 2^64 is not bounded.
- What a client does after a batch-face refusal, and late answers that reach the lists of the next batch, are left out.
- Engine.DamageIsLocal: supposes no batch-face refusals and launched updates that meet `Keeps`.
- Route expiration timers and scheduler events: an expiry is an ordinary unregistration.
- The propagator's assertions about entry states are not modelled, since a response may arrive after a disconnect or a re-insertion; retry and refresh timers are calls of `RedoPropagation`.
- Propagator.TableFollowsRib: the key chain is fixed during a run, and propagation is enabled throughout.
- SendProtocol.SuccessReflects: a command that timed out is carried out at once or never; a late execution after its retry is not modelled.
- Engine.QueueIsFifo: runs with a batch-face refusal, and the failure callback, are left out.
- The digest of a Data packet is an uninterpreted component; SHA-256 and signatures are not part of this model.
- Random nonces are parameters; the cached wire encoding of an Interest and of an Exclude is left out.
- The publisher key locator is a byte string; the inner encoding of key locators and delegations is left out.
- Sub-name arguments of `Name::compare`, `getSubName`, the library's own `getSuccessor` and URI forms are left out.
- Network.BuildRange: starts from the parsed address and prefix length; text parsing and the form without a slash are left out.
- Rtt.RunBounds: doubles are reals and the sample counter is unbounded, so rounding and a wrap after 2^32 samples are not captured.
- Face I/O, channels, transports, management dispatch, configuration, logging and read-only reporting are left out.
