# Topic-activation scheduler (allora-chain `x/emissions`), modelled in Dafny

The emissions keeper decides which topics are *active*, meaning which
topics churn at which future block. It keeps four keyed stores:

- `topicToNextPossibleChurningBlock`: topic → the block at which it next churns (`State.nextChurn`);
- `blockToActiveTopics`: block → the ordered list of topic ids churning there (`State.activeAt`);
- `blockToLowestActiveTopicWeight`: block → a cached (topic, weight) minimum of that list (`State.lowestAt`);
- `activeTopics`: the set of topics flagged active (`State.active`).

Each block's list is capped at `MaxActiveTopicsPerBlock`. At the cap, a
candidate whose weight is at least the cached lowest evicts the cached-lowest
topic. Ties go to the newcomer.

The model is functional. One immutable `State` record holds the four stores.
Every keeper method is a pure function of that state and an `Env`. The `Env`
carries the current block height, the per-block limit, the topic registry and
the weight oracle:

- the registry is `epochLength`: a topic is registered iff it has an epoch length;
- the weight oracle is `weight`: a lookup fails iff the topic has no entry.

Files:

- `types.dfy`: state, environment, the `(topic, weight)` pair, errors.
- `sequences.dfy`: first-occurrence removal, used both by teardown and by admission.
- `store.dfy`: the three queries with their not-found defaults, and block pruning.
- `lowest.dfy`: the minimum recompute, with an independent characterisation of "first lowest".
- `activation.dfy`: teardown, admission with limit, `ActivateTopic`, `InactivateTopic`, `UpdateActiveTopic`.
- `invariants.dfy`: the capacity bound and the registry/schedule/membership consistency, with the operations that preserve them.
- `scenarios.dfy`: worked examples of activation, eviction, rejection and removal on concrete states, and witnesses for the gaps below.

Facts of the code that a reader might not expect:

- `UpdateActiveTopic` on an unregistered topic fails in `GetTopic` before anything is written (`topic_activation.go:282-285`).
- A block's list can be empty while its cached minimum is still present. Inactivation can leave an empty list with its old cache entry (`topic_activation.go:126-133`, and `InactivateTopic` at `:274-277` does not recompute). A recompute in which no weight is available caches `(0, 0)` (`:97`).
- The internal teardown returns the stored block, not the reserved block, for a topic that is scheduled but no longer pending (`topic_activation.go:116-117`).
- The comment at `topic_activation.go:125` says that a topic missing from its block's list is a no-op. The code at `:126-133` overwrites the list with an empty one in that case.

## Known gaps of the source, reproduced

These are behaviours of the code as written. The model keeps them, and
`scenarios.dfy` shows each one on a concrete state.

- `InactivateTopic` never recomputes the vacated block's minimum. The cache can keep naming a topic that is no longer listed (`InactivateLeavesStaleMinimum`).
- `UpdateActiveTopic` leaves the topic in its previous block's list. It also neither checks nor sets the active flag (`UpdateLeavesOldMembership`, `UpdateDoesNotSetActiveFlag`).
- Teardown overwrites the block's list with an empty list when the topic is missing from it (`TeardownWipesListWhenMissing`).
- A topic whose churn block has passed, without the host acting on that block, stays flagged active but is no longer pending. `InactivateTopic` then does nothing (the early return at `topic_activation.go:116-117`), and `ActivateTopic` lists it at a new block while it stays listed at the old one (`ExpiredTopicListedTwice`).
- A cached minimum that names an unlisted topic lets an admission exceed the limit. So does a missing minimum: its default `(0, 0)` names topic 0, which genesis reserves and never registers. The eviction then removes nothing from the target list (`ZeroPairLetsListExceedLimit`).

For this reason the preservation lemmas carry explicit conditions:

- capacity is preserved when every full block's cache names one of its members and the candidate's weight is available;
- consistency is preserved by activation and inactivation. It is not preserved by `UpdateActiveTopic`.

`Consistent` includes the clause that no scheduled churn block has passed
(`ScheduledArePending`): every scheduled topic is registered and its block is
at least the current block. So consistency, and with it "flagged active iff
pending" (`ActiveIffPending`), holds only while the host acts on each block
at that block. `ActiveIffPending` follows from that clause directly; it is not
derived from the other conjuncts.

## Model

| member | source | states |
|---|---|---|
| Seqs.FirstIndex | x/emissions/keeper/topic_activation.go:127-131 | the position found is an occurrence of the id, and no earlier position holds it |
| Seqs.RemoveFirst | x/emissions/keeper/topic_activation.go:199-204 | cutting the first occurrence shortens the list by one and removes exactly one copy; survivors keep their relative order; a missing id leaves the list unchanged |
| Seqs.RemoveFirstNoDup | x/emissions/keeper/topic_activation.go:126-132 | on a duplicate-free list, the removal leaves no copy of the id and stays duplicate-free |
| Store.NextPossibleChurningBlock | x/emissions/keeper/topic_activation.go:16-26 | pending iff scheduled at a block at or after the current one; an unscheduled topic reports the reserved block 0 and not pending |
| Store.ActiveTopicIdsAtBlock | x/emissions/keeper/topic_activation.go:30-40 | a block without an entry reads as the empty list |
| Store.LowestActiveTopicWeightAtBlock | x/emissions/keeper/topic_activation.go:43-52 | the missing flag is set iff the block has no cached pair, and the zero pair is then returned |
| Store.PruneTopicActivationDataAtBlock | x/emissions/keeper/topic_activation.go:54-70 | afterwards the list query is empty and the minimum query reports missing; every other block's queries and the schedule and flags are unchanged |
| Store.PruneAbsentIsNoop | x/emissions/keeper/topic_activation.go:57-70 | pruning a never-populated block leaves the state unchanged |
| Store.PruneIdempotent | x/emissions/keeper/topic_activation.go:58-70 | pruning twice equals pruning once |
| Lowest.ScanLowest | x/emissions/keeper/topic_activation.go:82-95 | the recompute loop keeps "no weighed member yet" or "the earliest lightest weighed member so far" at every step, skipping failed lookups |
| Lowest.FirstLowestIndex | x/emissions/keeper/topic_activation.go:82-95 | absent iff no member's weight is available; otherwise the earliest member whose weight is ≤ every available weight and < every earlier available weight |
| Lowest.FirstLowestUnique | x/emissions/keeper/topic_activation.go:90-94 | the first-lowest position is unique, so ties favour the earlier member deterministically |
| Lowest.LowestPair | x/emissions/keeper/topic_activation.go:82-97 | the stored pair is the first lowest weighed member with its weight, ≤ every available weight; `(0, 0)` when every lookup fails |
| Lowest.ResetLowestActiveTopicWeightAtBlock | x/emissions/keeper/topic_activation.go:72-99 | on an empty list it is exactly pruning; otherwise only that block's cached pair changes, to the first lowest pair of its list |
| Lowest.ResetNamesLightestMember | x/emissions/keeper/topic_activation.go:82-98 | when any member is weighed, the cache names a listed, weighed topic with its weight, no heavier than any weighed member |
| Activation.InactivateTopicWithoutMinWeightReset | x/emissions/keeper/topic_activation.go:102-150 | no-op returning block 0 for unregistered topics, and no-op returning the stored block when not pending; otherwise it cuts the first occurrence from the scheduled block's list (empty list if absent), unschedules and unflags the topic, touches no other list or cache, and returns that block |
| Activation.AdmittedList | x/emissions/keeper/topic_activation.go:198-207 | the stored list is the old list, with the eviction target's first occurrence cut, plus the candidate at the end; its length grows by one unless the target was listed |
| Activation.AddTopicToActiveSetRespectingLimits | x/emissions/keeper/topic_activation.go:152-215 | error iff the candidate's weight lookup is needed and fails; no write and false iff already listed or at the limit with weight strictly below the cached lowest; below the limit it appends and stays within the limit; at the limit it tears down the cached-lowest topic, and the list is the old one minus that topic plus the candidate, with unchanged length when that topic was listed; the cache is never written |
| Activation.ActivateTopic | x/emissions/keeper/topic_activation.go:218-271 | no-op for unregistered or pending topics and on rejection; a failed admission's error is returned unchanged; on admission the topic is pending at current block + epoch length, listed there, that block's minimum recomputed, and the topic flagged active; no other topic's schedule entry differs from the state after admission; any changed state flags the topic |
| Activation.InactivateTopic | x/emissions/keeper/topic_activation.go:274-277 | equals the teardown, never touches the minimum cache, and leaves a registered topic not pending |
| Activation.UpdateActiveTopic | x/emissions/keeper/topic_activation.go:280-307 | error for unregistered topics; a failed admission's error is returned unchanged; on admission it reschedules at current block + epoch length and recomputes there, with no other topic's schedule entry differing from the state after admission; it never adds an active flag |
| Invariants.TeardownKeepsCapacity | x/emissions/keeper/topic_activation.go:120-149 | teardown keeps every list within the limit, and every full block's cache naming a member |
| Invariants.AdmissionWithinCapacity | x/emissions/keeper/topic_activation.go:176-214 | if every full block's cache names a member, a successful admission keeps every list within the limit |
| Invariants.ActivateKeepsCapacity | x/emissions/keeper/topic_activation.go:218-271 | with the candidate's weight available, activation preserves the capacity bound and its cache condition |
| Invariants.UpdateKeepsCapacity | x/emissions/keeper/topic_activation.go:280-307 | under the same condition, rescheduling preserves the capacity bound |
| Invariants.InactivateKeepsCapacity | x/emissions/keeper/topic_activation.go:274-277 | inactivation preserves the capacity bound |
| Invariants.ActiveIffPending | x/emissions/keeper/topic_activation.go:16-26 | in a consistent state, a topic is flagged active iff its churn is pending; this holds only while no scheduled churn block has passed, a clause of consistency |
| Invariants.TeardownKeepsConsistency | x/emissions/keeper/topic_activation.go:102-150 | teardown keeps consistency; afterwards the topic is nowhere; in a consistent state the list is never wiped |
| Invariants.AdmissionOverConsistent | x/emissions/keeper/topic_activation.go:193-214 | in a consistent state, the list admission stores equals the post-eviction list plus the candidate, so the two writes agree |
| Invariants.ActivateKeepsConsistency | x/emissions/keeper/topic_activation.go:218-271 | activation with a non-negative epoch length preserves "active in exactly one place" |
| Invariants.InactivateKeepsConsistency | x/emissions/keeper/topic_activation.go:274-277 | inactivation preserves consistency |
| Scenarios.TieAdmitsNewcomer | x/emissions/keeper/topic_activation.go:189-192 | a candidate weighing exactly the cached lowest is admitted |
| Scenarios.ActivateRoundTrip | x/emissions/keeper/topic_activation.go:240-265 | epoch 10 at block 100 gives churn block 110, pending, listed and flagged |
| Scenarios.EvictionScenario | x/emissions/keeper/topic_activation.go:177-214 | at limit 2 with [A(5), B(3)], C(4) evicts B: list [A, C], B unscheduled and unflagged, cache (C, 4) |
| Scenarios.RejectionScenario | x/emissions/keeper/topic_activation.go:189-191 | on the same full block, D(1) is rejected and the state is unchanged |
| Scenarios.RemovalScenario | x/emissions/keeper/topic_activation.go:274-277 | inactivating A from [A, C] leaves [C], A not pending, the cache untouched |
| Scenarios.EmptyingScenario | x/emissions/keeper/topic_activation.go:72-80 | inactivating a block's last member leaves an empty list with the old cache; the next recompute there prunes it and the minimum reads as missing |
| Scenarios.InactivateLeavesStaleMinimum | x/emissions/keeper/topic_activation.go:274-277 | from a consistent state whose cache names a member, inactivation leaves the cache naming an unlisted topic |
| Scenarios.ExpiredTopicListedTwice | x/emissions/keeper/topic_activation.go:102-117 | once the block passes a flagged topic's churn block, the state is no longer consistent, inactivation leaves it unchanged, and activation lists the topic at two blocks |
| Scenarios.UpdateLeavesOldMembership | x/emissions/keeper/topic_activation.go:280-307 | from a consistent state, rescheduling lists the topic at two blocks and breaks consistency |
| Scenarios.UpdateDoesNotSetActiveFlag | x/emissions/keeper/topic_activation.go:280-307 | rescheduling an inactive topic schedules it as pending without flagging it active |
| Scenarios.TeardownWipesListWhenMissing | x/emissions/keeper/topic_activation.go:124-133 | teardown of a topic missing from its block's list empties that list |
| Scenarios.ZeroPairLetsListExceedLimit | x/emissions/keeper/topic_activation.go:176-207 | after a recompute with no weight available caches (0, 0), an admission at limit 1 produces a list of two |

## Left out

- Store I/O errors other than not-found, and the error from reading the parameters: every read and write is taken to succeed.
- The warning logged on rejection: logging has no effect on state.
- The `int32` casts in the capacity comparison: the model compares the unbounded list length with the unbounded limit.
- Signed 64-bit overflow of `currentBlock + EpochLength`: block heights are unbounded integers.
- Decimal weights: only their order is used, so they are integers here.
- How topic weights are computed: they are an oracle, a map whose missing keys are failed lookups.
- The bodies of `GetTopic` and `topics.Has`: a topic is registered iff the registry map has its epoch length, and `GetTopic` fails exactly for unregistered topics.
- Go slice aliasing: lists are immutable sequences. Each store read in the source yields a fresh slice, so no aliasing is lost.
- x/emissions/types/genesis.go and x/emissions/keeper/genesis.go: default genesis literals, address validation and bootstrap plumbing, with no scheduling logic. The only fact used from them is that topic id 0 is reserved.
- Changes of the environment between calls (block progression, limit changes, weight changes): each lemma fixes the environment for one call.
