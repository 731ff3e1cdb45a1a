/** Worked examples of the scheduler on concrete states (activation,
    eviction, rejection and removal), and witnesses for the behaviours of
    the code that break the intended invariants. */
module Scenarios {
  import opened Types
  import opened Seqs
  import opened Store
  import opened Lowest
  import opened Activation
  import opened Invariants

  const A: TopicId := 1
  const B: TopicId := 2
  const C: TopicId := 3
  const D: TopicId := 4

  /** A candidate whose weight equals the cached lowest is admitted: ties go
      to the newcomer. */
  lemma TieAdmitsNewcomer(s: State, topic: TopicId, block: BlockHeight, env: Env)
    requires topic !in ActiveTopicIdsAtBlock(s, block)
    requires |ActiveTopicIdsAtBlock(s, block)| >= env.maxActiveTopicsPerBlock
    requires topic in env.weight
    requires env.weight[topic] == LowestActiveTopicWeightAtBlock(s, block).0.weight
    ensures AddTopicToActiveSetRespectingLimits(s, topic, block, env).Ok?
    ensures AddTopicToActiveSetRespectingLimits(s, topic, block, env).value.1
  {
  }

  /** Activating a topic with epoch length 10 at block 100 schedules it at
      block 110, pending, and lists it there. */
  lemma ActivateRoundTrip()
    ensures
      var env := Env(100, 2, map[A := 10], map[A := 5]);
      var r := ActivateTopic(EmptyState, A, env);
      && r.Ok?
      && NextPossibleChurningBlock(r.value, A, 100) == (110, true)
      && ActiveTopicIdsAtBlock(r.value, 110) == [A]
      && A in r.value.active
      && r.value.lowestAt[110] == TopicWeight(A, 5)
  {
    var env := Env(100, 2, map[A := 10], map[A := 5]);
    var adm := AddTopicToActiveSetRespectingLimits(EmptyState, A, 110, env);
    assert adm.Ok? && adm.value.1;
    assert ActiveTopicIdsAtBlock(adm.value.0, 110) == [A];
    var p := LowestPair([A], map[A := 5]);
    assert p == TopicWeight(A, 5) by {
      assert IsFirstLowest([A], map[A := 5], 0);
    }
  }

  /** Block 100 full with A (weight 5) and B (weight 3), B cached as lowest. */
  function FullBlock(): State {
    State(map[A := 100, B := 100], map[100 := [A, B]], map[100 := TopicWeight(B, 3)], {A, B})
  }

  function FullBlockEnv(): Env {
    Env(90, 2, map[A := 10, B := 10, C := 10, D := 10], map[A := 5, B := 3, C := 4, D := 1])
  }

  /** The state after C's admission at block 100 and before rescheduling. */
  function AfterEviction(): State {
    State(map[A := 100], map[100 := [A, C]], map[100 := TopicWeight(B, 3)], {A})
  }

  /** C (weight 4) evicts B (weight 3): B loses its schedule and flag, the
      block lists A then C, and C becomes the cached lowest. */
  lemma EvictionScenario(s: State, env: Env)
    requires s == FullBlock() && env == FullBlockEnv()
    ensures ActivateTopic(s, C, env) ==
      Ok(State(map[A := 100, C := 100], map[100 := [A, C]], map[100 := TopicWeight(C, 4)], {A, C}))
  {
    EvictionAdmission(s, env);
    var admitted := AfterEviction();
    assert !Pending(s, C, env) && EpochEndBlock(C, env) == 100;
    ActivateUnfold(s, C, env, admitted);
    EvictionRecompute(admitted.(nextChurn := admitted.nextChurn[C := 100]), env.weight);
  }

  /** The recompute step of the eviction scenario. */
  lemma EvictionRecompute(scheduled: State, weight: map<TopicId, int>)
    requires scheduled == AfterEviction().(nextChurn := AfterEviction().nextChurn[C := 100])
    requires weight == FullBlockEnv().weight
    ensures
      var reset := ResetLowestActiveTopicWeightAtBlock(scheduled, 100, weight);
      reset.(active := reset.active + {C}) ==
        State(map[A := 100, C := 100], map[100 := [A, C]], map[100 := TopicWeight(C, 4)], {A, C})
  {
    assert IsFirstLowest([A, C], weight, 1);
    assert LowestPair([A, C], weight) == TopicWeight(C, 4);
    assert ActiveTopicIdsAtBlock(scheduled, 100) == [A, C];
    assert scheduled.nextChurn == map[A := 100, C := 100];
  }

  /** The admission step of the eviction scenario. */
  lemma EvictionAdmission(s: State, env: Env)
    requires s == FullBlock() && env == FullBlockEnv()
    ensures AddTopicToActiveSetRespectingLimits(s, C, 100, env) == Ok((AfterEviction(), true))
  {
    EvictionTeardown(s, env);
    var torn := State(map[A := 100], map[100 := [A]], map[100 := TopicWeight(B, 3)], {A});
    assert RemoveFirst([A, B], B) == [A];
    assert AdmittedList([A, B], Some(B), C) == [A, C];
    assert torn.activeAt[100 := [A, C]] == map[100 := [A, C]];
  }

  /** Tearing down B, the cached lowest of the full block. */
  lemma EvictionTeardown(s: State, env: Env)
    requires s == FullBlock() && env == FullBlockEnv()
    ensures InactivateTopicWithoutMinWeightReset(s, B, env).0 ==
      State(map[A := 100], map[100 := [A]], map[100 := TopicWeight(B, 3)], {A})
  {
    assert FirstIndex([A, B], B) == 1;
    assert RemoveFirst([A, B], B) == [A];
    assert s.nextChurn - {B} == map[A := 100];
    assert s.active - {B} == {A};
  }

  /** D (weight 1) is lighter than the cached lowest (3): rejected, nothing
      changes and D stays inactive. */
  lemma RejectionScenario()
    ensures ActivateTopic(FullBlock(), D, FullBlockEnv()) == Ok(FullBlock())
  {
    var adm := AddTopicToActiveSetRespectingLimits(FullBlock(), D, 100, FullBlockEnv());
    assert adm == Ok((FullBlock(), false));
  }

  /** Block 110 lists A then C with C cached as lowest. */
  function TwoAt110(): State {
    State(map[A := 110, C := 110], map[110 := [A, C]], map[110 := TopicWeight(C, 4)], {A, C})
  }

  function At100Env(): Env {
    Env(100, 2, map[A := 10, C := 10], map[A := 5, C := 4])
  }

  /** Inactivating A leaves block 110 listing only C, A no longer pending,
      and the cached minimum exactly as it was. */
  lemma RemovalScenario()
    ensures
      var r := InactivateTopic(TwoAt110(), A, At100Env());
      && ActiveTopicIdsAtBlock(r, 110) == [C]
      && !NextPossibleChurningBlock(r, A, 100).1
      && A !in r.active
      && r.lowestAt == TwoAt110().lowestAt
  {
    assert FirstIndex([A, C], A) == 0;
    assert RemoveFirst([A, C], A) == [C];
  }

  /** Block 110 lists A then C, with A, the lighter one, cached as lowest. */
  function LightAAt110(): State {
    State(map[A := 110, C := 110], map[110 := [A, C]], map[110 := TopicWeight(A, 1)], {A, C})
  }

  lemma LightAAt110Consistent()
    ensures Consistent(LightAAt110(), At100Env()) && CacheNamesMember(LightAAt110(), 110)
  {
    var s := LightAAt110();
    forall b ensures NoDup(ActiveTopicIdsAtBlock(s, b)) {
      if b == 110 {
        assert ActiveTopicIdsAtBlock(s, b) == [A, C];
      }
    }
  }

  /** Inactivation leaves a stale cache: after A, the cached lowest of block
      110, is inactivated, the cache still names A, which is no longer
      listed there. */
  lemma InactivateLeavesStaleMinimum()
    ensures Consistent(LightAAt110(), At100Env()) && CacheNamesMember(LightAAt110(), 110)
    ensures
      var r := InactivateTopic(LightAAt110(), A, At100Env());
      && r.lowestAt[110] == TopicWeight(A, 1)
      && ActiveTopicIdsAtBlock(r, 110) == [C]
      && !CacheNamesMember(r, 110)
  {
    var s := LightAAt110();
    LightAAt110Consistent();
    assert FirstIndex([A, C], A) == 0;
    assert RemoveFirst([A, C], A) == [C];
  }

  /** A alone at block 110, scheduled there, at block 105. */
  function AloneAt110(): State {
    State(map[A := 110], map[110 := [A]], map[110 := TopicWeight(A, 5)], {A})
  }

  function At105Env(): Env {
    Env(105, 2, map[A := 10], map[A := 5])
  }

  lemma AloneAt110Consistent()
    ensures Consistent(AloneAt110(), At105Env())
  {
    var s := AloneAt110();
    forall b ensures NoDup(ActiveTopicIdsAtBlock(s, b)) {
      if b == 110 {
        assert ActiveTopicIdsAtBlock(s, b) == [A];
      }
    }
  }

  /** Inactivating the only member of a block leaves an empty list and the
      old cached pair; only the next recompute at that block prunes it, after
      which the minimum query reports missing. */
  lemma EmptyingScenario()
    ensures
      var r := InactivateTopic(AloneAt110(), A, At105Env());
      && ActiveTopicIdsAtBlock(r, 110) == []
      && LowestActiveTopicWeightAtBlock(r, 110) == (TopicWeight(A, 5), false)
      && var reset := ResetLowestActiveTopicWeightAtBlock(r, 110, At105Env().weight);
         && LowestActiveTopicWeightAtBlock(reset, 110).1
         && 110 !in reset.activeAt
  {
    var s, env := AloneAt110(), At105Env();
    assert RemoveFirst([A], A) == [];
  }

  /** Block 111, one past A's churn block, with A's epoch length still 10. */
  function At111Env(): Env {
    Env(111, 2, map[A := 10], map[A := 5])
  }

  /** Once the block passes a topic's churn block without the host acting on
      it, the topic stays flagged active but is no longer pending.
      Inactivation then does nothing, and activation lists the topic a
      second time, at block 121, while its entry at block 110 remains. */
  lemma ExpiredTopicListedTwice()
    ensures Consistent(AloneAt110(), At105Env())
    ensures !Consistent(AloneAt110(), At111Env())
    ensures A in AloneAt110().active && !Pending(AloneAt110(), A, At111Env())
    ensures InactivateTopic(AloneAt110(), A, At111Env()) == AloneAt110()
    ensures
      var r := ActivateTopic(AloneAt110(), A, At111Env());
      && r.Ok?
      && A in ActiveTopicIdsAtBlock(r.value, 110)
      && A in ActiveTopicIdsAtBlock(r.value, 121)
      && r.value.nextChurn[A] == 121
  {
    var s, env := AloneAt110(), At111Env();
    AloneAt110Consistent();
    var adm := AddTopicToActiveSetRespectingLimits(s, A, 121, env);
    assert adm.Ok? && adm.value.1;
    assert ActiveTopicIdsAtBlock(adm.value.0, 110) == [A];
  }

  /** Rescheduling an active topic at a later block leaves it listed at its
      old block too: the state is no longer consistent. */
  lemma UpdateLeavesOldMembership()
    ensures Consistent(AloneAt110(), At105Env())
    ensures
      var r := UpdateActiveTopic(AloneAt110(), A, At105Env());
      && r.Ok?
      && A in ActiveTopicIdsAtBlock(r.value, 110)
      && A in ActiveTopicIdsAtBlock(r.value, 115)
      && r.value.nextChurn[A] == 115
      && !Consistent(r.value, At105Env())
  {
    var s, env := AloneAt110(), At105Env();
    AloneAt110Consistent();
    var adm := AddTopicToActiveSetRespectingLimits(s, A, 115, env);
    assert adm.Ok? && adm.value.1;
    assert ActiveTopicIdsAtBlock(adm.value.0, 110) == [A];
    var r := UpdateActiveTopic(s, A, env);
    assert A in ActiveTopicIdsAtBlock(r.value, 110);
    assert r.value.nextChurn[A] != 110;
  }

  /** Rescheduling an inactive topic gives it a schedule entry without the
      active flag. */
  lemma UpdateDoesNotSetActiveFlag()
    ensures
      var env := Env(100, 2, map[A := 10], map[A := 5]);
      var r := UpdateActiveTopic(EmptyState, A, env);
      && r.Ok?
      && NextPossibleChurningBlock(r.value, A, 100) == (110, true)
      && A !in r.value.active
  {
    var env := Env(100, 2, map[A := 10], map[A := 5]);
    assert AddTopicToActiveSetRespectingLimits(EmptyState, A, 110, env).value.1;
  }

  /** Teardown of a topic scheduled at a block whose list does not contain
      it overwrites that list with an empty one, dropping C. */
  lemma TeardownWipesListWhenMissing()
    ensures
      var s := State(map[A := 110, C := 110], map[110 := [C]], map[], {A, C});
      var r := InactivateTopicWithoutMinWeightReset(s, A, At100Env());
      && r.1 == 110
      && ActiveTopicIdsAtBlock(r.0, 110) == []
      && r.0.nextChurn == map[C := 110]
  {
  }

  /** When no member's weight is available the recompute caches the zero
      pair, whose topic id 0 is never registered (it is reserved). A later
      candidate at the full block then evicts nobody and the list exceeds
      the limit of 1. */
  lemma ZeroPairLetsListExceedLimit()
    ensures
      var env := Env(100, 1, map[A := 10, C := 10], map[C := 4]);
      var s := State(map[A := 110], map[110 := [A]], map[], {A});
      var reset := ResetLowestActiveTopicWeightAtBlock(s, 110, env.weight);
      var r := ActivateTopic(reset, C, env);
      && reset.lowestAt[110] == ZeroPair
      && WithinCapacity(reset, 1)
      && r.Ok?
      && ActiveTopicIdsAtBlock(r.value, 110) == [A, C]
      && !WithinCapacity(r.value, 1)
  {
    var env := Env(100, 1, map[A := 10, C := 10], map[C := 4]);
    var s := State(map[A := 110], map[110 := [A]], map[], {A});
    assert NoneWeighed([A], env.weight);
    var reset := ResetLowestActiveTopicWeightAtBlock(s, 110, env.weight);
    assert reset == State(map[A := 110], map[110 := [A]], map[110 := ZeroPair], {A});
    forall b ensures |ActiveTopicIdsAtBlock(reset, b)| <= 1 {
      if b == 110 { assert ActiveTopicIdsAtBlock(reset, b) == [A]; }
    }
    var adm := AddTopicToActiveSetRespectingLimits(reset, C, 110, env);
    assert adm.Ok? && adm.value.1;
    var r := ActivateTopic(reset, C, env);
    assert |ActiveTopicIdsAtBlock(r.value, 110)| > 1;
  }
}
