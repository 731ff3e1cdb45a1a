/** The capacity bound and the registry/schedule/membership consistency,
    and which operations preserve them under which conditions. Each lemma
    is about a single call, with the host-provided environment fixed. */
module Invariants {
  import opened Types
  import opened Seqs
  import opened Store
  import opened Lowest
  import opened Activation

  /** No block lists more topics than the limit. */
  ghost predicate WithinCapacity(s: State, limit: nat) {
    forall b :: |ActiveTopicIdsAtBlock(s, b)| <= limit
  }

  /** The block has a cached minimum and it names a member of its list. */
  ghost predicate CacheNamesMember(s: State, b: BlockHeight) {
    b in s.lowestAt && s.lowestAt[b].topicId in ActiveTopicIdsAtBlock(s, b)
  }

  /** Every block whose list has reached the limit has a cached minimum that
      names one of its members, so an eviction there frees a slot. */
  ghost predicate FullBlocksCovered(s: State, limit: nat) {
    forall b :: |ActiveTopicIdsAtBlock(s, b)| >= limit ==> CacheNamesMember(s, b)
  }

  ghost predicate CapacityInvariant(s: State, limit: nat) {
    WithinCapacity(s, limit) && FullBlocksCovered(s, limit)
  }

  /** A topic is active in exactly one place: the active flags are the
      scheduled topics, each scheduled topic is listed at its block, every
      listed topic is scheduled at the block listing it, no list repeats an
      id, and every scheduled topic is registered and still pending. */
  ghost predicate Consistent(s: State, env: Env) {
    && s.active == s.nextChurn.Keys
    && ScheduledAreListed(s)
    && ListedAreScheduled(s)
    && ListsDistinct(s)
    && ScheduledArePending(s, env)
  }

  ghost predicate ScheduledAreListed(s: State) {
    forall t :: t in s.nextChurn ==> t in ActiveTopicIdsAtBlock(s, s.nextChurn[t])
  }

  ghost predicate ListedAreScheduled(s: State) {
    forall b, t :: t in ActiveTopicIdsAtBlock(s, b) ==> t in s.nextChurn && s.nextChurn[t] == b
  }

  ghost predicate ListsDistinct(s: State) {
    forall b :: NoDup(ActiveTopicIdsAtBlock(s, b))
  }

  ghost predicate ScheduledArePending(s: State, env: Env) {
    forall t :: t in s.nextChurn ==> Registered(env, t) && s.nextChurn[t] >= env.currentBlock
  }

  // ---------------------------------------------------------------------
  // Capacity

  /** Teardown only ever shortens one list, so it keeps the capacity
      invariant. */
  lemma TeardownKeepsCapacity(s: State, topic: TopicId, env: Env)
    requires env.maxActiveTopicsPerBlock > 0
    requires CapacityInvariant(s, env.maxActiveTopicsPerBlock)
    ensures CapacityInvariant(InactivateTopicWithoutMinWeightReset(s, topic, env).0, env.maxActiveTopicsPerBlock)
  {
    var limit := env.maxActiveTopicsPerBlock;
    var r := InactivateTopicWithoutMinWeightReset(s, topic, env).0;
    if Pending(s, topic, env) {
      var block := s.nextChurn[topic];
      var ids := ActiveTopicIdsAtBlock(s, block);
      assert |ids| <= limit;
      assert |ActiveTopicIdsAtBlock(r, block)| < limit;
      forall b ensures |ActiveTopicIdsAtBlock(r, b)| <= limit {
        if b != block {
          assert ActiveTopicIdsAtBlock(r, b) == ActiveTopicIdsAtBlock(s, b);
        }
      }
      forall b | |ActiveTopicIdsAtBlock(r, b)| >= limit
        ensures CacheNamesMember(r, b)
      {
        assert b != block;
        assert ActiveTopicIdsAtBlock(r, b) == ActiveTopicIdsAtBlock(s, b);
      }
    }
  }

  /** A successful admission never makes any list longer than the limit,
      given that a full target block's cache names one of its members; every
      block other than the target stays covered. */
  lemma AdmissionWithinCapacity(s: State, topic: TopicId, block: BlockHeight, env: Env)
    requires env.maxActiveTopicsPerBlock > 0
    requires CapacityInvariant(s, env.maxActiveTopicsPerBlock)
    ensures
      var r := AddTopicToActiveSetRespectingLimits(s, topic, block, env);
      r.Ok? ==>
        && WithinCapacity(r.value.0, env.maxActiveTopicsPerBlock)
        && (forall b :: b != block && |ActiveTopicIdsAtBlock(r.value.0, b)| >= env.maxActiveTopicsPerBlock
              ==> CacheNamesMember(r.value.0, b))
  {
    var limit := env.maxActiveTopicsPerBlock;
    var r := AddTopicToActiveSetRespectingLimits(s, topic, block, env);
    if r.Ok? && r.value.1 {
      var s1 := r.value.0;
      var ids := ActiveTopicIdsAtBlock(s, block);
      var base := if |ids| < limit then s
        else InactivateTopicWithoutMinWeightReset(s, LowestActiveTopicWeightAtBlock(s, block).0.topicId, env).0;
      if |ids| >= limit {
        TeardownKeepsCapacity(s, LowestActiveTopicWeightAtBlock(s, block).0.topicId, env);
        assert CacheNamesMember(s, block);
      }
      assert CapacityInvariant(base, limit);
      assert base.lowestAt == s1.lowestAt;
      forall b ensures |ActiveTopicIdsAtBlock(s1, b)| <= limit {
        if b != block {
          assert ActiveTopicIdsAtBlock(s1, b) == ActiveTopicIdsAtBlock(base, b);
        }
      }
      forall b | b != block && |ActiveTopicIdsAtBlock(s1, b)| >= limit
        ensures CacheNamesMember(s1, b)
      {
        assert ActiveTopicIdsAtBlock(s1, b) == ActiveTopicIdsAtBlock(base, b);
      }
    }
  }

  /** Activation keeps the capacity invariant when the candidate's weight is
      available: the recompute then names a listed topic at the target. */
  lemma ActivateKeepsCapacity(s: State, topic: TopicId, env: Env)
    requires env.maxActiveTopicsPerBlock > 0
    requires CapacityInvariant(s, env.maxActiveTopicsPerBlock)
    requires topic in env.weight
    ensures
      var r := ActivateTopic(s, topic, env);
      r.Ok? ==> CapacityInvariant(r.value, env.maxActiveTopicsPerBlock)
  {
    var r := ActivateTopic(s, topic, env);
    if r.Ok? && r.value != s {
      var target := EpochEndBlock(topic, env);
      AdmissionWithinCapacity(s, topic, target, env);
      var adm := AddTopicToActiveSetRespectingLimits(s, topic, target, env).value.0;
      ReachedLimitCovered(adm, r.value, topic, target, env);
    }
  }

  /** Rescheduling keeps the capacity invariant under the same condition. */
  lemma UpdateKeepsCapacity(s: State, topic: TopicId, env: Env)
    requires env.maxActiveTopicsPerBlock > 0
    requires CapacityInvariant(s, env.maxActiveTopicsPerBlock)
    requires topic in env.weight
    ensures
      var r := UpdateActiveTopic(s, topic, env);
      r.Ok? ==> CapacityInvariant(r.value, env.maxActiveTopicsPerBlock)
  {
    var r := UpdateActiveTopic(s, topic, env);
    if r.Ok? && r.value != s {
      var target := EpochEndBlock(topic, env);
      AdmissionWithinCapacity(s, topic, target, env);
      var adm := AddTopicToActiveSetRespectingLimits(s, topic, target, env).value.0;
      ReachedLimitCovered(adm, r.value, topic, target, env);
    }
  }

  /** The common last step of activation and rescheduling: after the
      recompute at the target, the target is covered, and every other block
      is as it was after admission. */
  lemma ReachedLimitCovered(adm: State, r: State, topic: TopicId, target: BlockHeight, env: Env)
    requires WithinCapacity(adm, env.maxActiveTopicsPerBlock)
    requires forall b :: b != target && |ActiveTopicIdsAtBlock(adm, b)| >= env.maxActiveTopicsPerBlock
               ==> CacheNamesMember(adm, b)
    requires topic in env.weight
    requires ActiveTopicIdsAtBlock(r, target) == ActiveTopicIdsAtBlock(adm, target)
    requires topic in ActiveTopicIdsAtBlock(r, target)
    requires target in r.lowestAt
    requires r.lowestAt[target] == LowestPair(ActiveTopicIdsAtBlock(r, target), env.weight)
    requires forall b :: b != target ==> SameAtBlock(r, adm, b)
    ensures CapacityInvariant(r, env.maxActiveTopicsPerBlock)
  {
    var limit := env.maxActiveTopicsPerBlock;
    var ids := ActiveTopicIdsAtBlock(r, target);
    var i := FirstIndex(ids, topic);
    assert !NoneWeighed(ids, env.weight) by { assert ids[i] in env.weight; }
    forall b ensures |ActiveTopicIdsAtBlock(r, b)| <= limit {
      if b != target {
        assert SameAtBlock(r, adm, b);
      }
    }
    forall b | |ActiveTopicIdsAtBlock(r, b)| >= limit
      ensures CacheNamesMember(r, b)
    {
      if b != target {
        assert SameAtBlock(r, adm, b);
        assert CacheNamesMember(adm, b);
        assert LowestActiveTopicWeightAtBlock(r, b) == LowestActiveTopicWeightAtBlock(adm, b);
      }
    }
  }

  /** Public inactivation keeps the capacity invariant. */
  lemma InactivateKeepsCapacity(s: State, topic: TopicId, env: Env)
    requires env.maxActiveTopicsPerBlock > 0
    requires CapacityInvariant(s, env.maxActiveTopicsPerBlock)
    ensures CapacityInvariant(InactivateTopic(s, topic, env), env.maxActiveTopicsPerBlock)
  {
    TeardownKeepsCapacity(s, topic, env);
  }

  // ---------------------------------------------------------------------
  // Consistency

  /** Under consistency the active flag and the pending-churn query agree. */
  lemma ActiveIffPending(s: State, topic: TopicId, env: Env)
    requires Consistent(s, env)
    ensures topic in s.active <==> NextPossibleChurningBlock(s, topic, env.currentBlock).1
  {
  }

  /** Teardown keeps consistency; afterwards the topic is neither scheduled
      nor listed anywhere, and a pending topic is always found in its list,
      so the list is never wiped. */
  lemma TeardownKeepsConsistency(s: State, topic: TopicId, env: Env)
    requires Consistent(s, env)
    ensures
      var r := InactivateTopicWithoutMinWeightReset(s, topic, env).0;
      && Consistent(r, env)
      && topic !in r.nextChurn
      && (forall b :: topic !in ActiveTopicIdsAtBlock(r, b))
      && (topic in s.nextChurn ==>
            ActiveTopicIdsAtBlock(r, s.nextChurn[topic]) == RemoveFirst(ActiveTopicIdsAtBlock(s, s.nextChurn[topic]), topic))
  {
    var r := InactivateTopicWithoutMinWeightReset(s, topic, env).0;
    if Pending(s, topic, env) {
      TeardownPendingKeepsConsistency(s, topic, env);
    } else {
      assert r == s && topic !in s.nextChurn;
    }
  }

  /** The pending case of the lemma above. */
  lemma TeardownPendingKeepsConsistency(s: State, topic: TopicId, env: Env)
    requires Consistent(s, env) && Pending(s, topic, env)
    ensures
      var r := InactivateTopicWithoutMinWeightReset(s, topic, env).0;
      && Consistent(r, env)
      && topic !in r.nextChurn
      && (forall b :: topic !in ActiveTopicIdsAtBlock(r, b))
      && ActiveTopicIdsAtBlock(r, s.nextChurn[topic]) == RemoveFirst(ActiveTopicIdsAtBlock(s, s.nextChurn[topic]), topic)
  {
    var block := s.nextChurn[topic];
    var kept := RemoveFirst(ActiveTopicIdsAtBlock(s, block), topic);
    var r := State(s.nextChurn - {topic}, s.activeAt[block := kept], s.lowestAt, s.active - {topic});
    assert InactivateTopicWithoutMinWeightReset(s, topic, env).0 == r;
    RemovalKeepsConsistency(s, topic, block, r, env);
  }

  /** Cutting a scheduled topic out of its block's list and dropping its
      schedule entry and flag keeps consistency. */
  lemma RemovalKeepsConsistency(s: State, topic: TopicId, block: BlockHeight, r: State, env: Env)
    requires Consistent(s, env)
    requires topic in s.nextChurn && s.nextChurn[topic] == block
    requires r == State(s.nextChurn - {topic}, s.activeAt[block := RemoveFirst(ActiveTopicIdsAtBlock(s, block), topic)],
                        s.lowestAt, s.active - {topic})
    ensures Consistent(r, env)
    ensures forall b :: topic !in ActiveTopicIdsAtBlock(r, b)
  {
    var ids := ActiveTopicIdsAtBlock(s, block);
    assert ActiveTopicIdsAtBlock(r, block) == RemoveFirst(ids, topic);
    assert forall b :: b != block ==> ActiveTopicIdsAtBlock(r, b) == ActiveTopicIdsAtBlock(s, b);
    RemovalKeepsListsDistinct(s, topic, block, r);
    RemovalKeepsScheduledListed(s, topic, block, r);
    RemovalKeepsListedScheduled(s, topic, block, r);
  }

  lemma RemovalKeepsListsDistinct(s: State, topic: TopicId, block: BlockHeight, r: State)
    requires ListsDistinct(s) && ListedAreScheduled(s)
    requires topic in s.nextChurn && s.nextChurn[topic] == block
    requires ActiveTopicIdsAtBlock(r, block) == RemoveFirst(ActiveTopicIdsAtBlock(s, block), topic)
    requires forall b :: b != block ==> ActiveTopicIdsAtBlock(r, b) == ActiveTopicIdsAtBlock(s, b)
    ensures ListsDistinct(r)
    ensures forall b :: topic !in ActiveTopicIdsAtBlock(r, b)
  {
    RemoveFirstNoDup(ActiveTopicIdsAtBlock(s, block), topic);
    forall b ensures NoDup(ActiveTopicIdsAtBlock(r, b)) && topic !in ActiveTopicIdsAtBlock(r, b) {
      if b != block {
        assert topic !in ActiveTopicIdsAtBlock(s, b);
      }
    }
  }

  lemma RemovalKeepsScheduledListed(s: State, topic: TopicId, block: BlockHeight, r: State)
    requires ScheduledAreListed(s)
    requires r.nextChurn == s.nextChurn - {topic}
    requires ActiveTopicIdsAtBlock(r, block) == RemoveFirst(ActiveTopicIdsAtBlock(s, block), topic)
    requires forall b :: b != block ==> ActiveTopicIdsAtBlock(r, b) == ActiveTopicIdsAtBlock(s, b)
    ensures ScheduledAreListed(r)
  {
    forall t | t in r.nextChurn
      ensures t in ActiveTopicIdsAtBlock(r, r.nextChurn[t])
    {
      assert t != topic && t in ActiveTopicIdsAtBlock(s, s.nextChurn[t]);
    }
  }

  lemma RemovalKeepsListedScheduled(s: State, topic: TopicId, block: BlockHeight, r: State)
    requires ListedAreScheduled(s)
    requires r.nextChurn == s.nextChurn - {topic}
    requires forall b :: topic !in ActiveTopicIdsAtBlock(r, b)
    requires ActiveTopicIdsAtBlock(r, block) == RemoveFirst(ActiveTopicIdsAtBlock(s, block), topic)
    requires forall b :: b != block ==> ActiveTopicIdsAtBlock(r, b) == ActiveTopicIdsAtBlock(s, b)
    ensures ListedAreScheduled(r)
  {
    forall b, t | t in ActiveTopicIdsAtBlock(r, b)
      ensures t in r.nextChurn && r.nextChurn[t] == b
    {
      assert t in ActiveTopicIdsAtBlock(s, b);
    }
  }

  /** Scheduling a topic that is nowhere yet at a pending block, appending it
      to that block's list and flagging it active keeps consistency. */
  lemma ScheduleFreshKeepsConsistency(base: State, r: State, topic: TopicId, target: BlockHeight, env: Env)
    requires Consistent(base, env)
    requires topic !in base.nextChurn
    requires Registered(env, topic) && target >= env.currentBlock
    requires r.nextChurn == base.nextChurn[topic := target]
    requires r.active == base.active + {topic}
    requires ActiveTopicIdsAtBlock(r, target) == ActiveTopicIdsAtBlock(base, target) + [topic]
    requires forall b :: b != target ==> ActiveTopicIdsAtBlock(r, b) == ActiveTopicIdsAtBlock(base, b)
    ensures Consistent(r, env)
  {
    ScheduleFreshKeepsListsDistinct(base, r, topic, target);
    ScheduleFreshKeepsScheduledListed(base, r, topic, target);
    ScheduleFreshKeepsListedScheduled(base, r, topic, target);
  }

  lemma ScheduleFreshKeepsListsDistinct(base: State, r: State, topic: TopicId, target: BlockHeight)
    requires ListsDistinct(base) && ListedAreScheduled(base)
    requires topic !in base.nextChurn
    requires ActiveTopicIdsAtBlock(r, target) == ActiveTopicIdsAtBlock(base, target) + [topic]
    requires forall b :: b != target ==> ActiveTopicIdsAtBlock(r, b) == ActiveTopicIdsAtBlock(base, b)
    ensures ListsDistinct(r)
  {
    assert topic !in ActiveTopicIdsAtBlock(base, target);
    AppendFreshNoDup(ActiveTopicIdsAtBlock(base, target), topic);
    forall b ensures NoDup(ActiveTopicIdsAtBlock(r, b)) {
      if b != target {
        assert ActiveTopicIdsAtBlock(r, b) == ActiveTopicIdsAtBlock(base, b);
      }
    }
  }

  lemma ScheduleFreshKeepsScheduledListed(base: State, r: State, topic: TopicId, target: BlockHeight)
    requires ScheduledAreListed(base)
    requires r.nextChurn == base.nextChurn[topic := target]
    requires ActiveTopicIdsAtBlock(r, target) == ActiveTopicIdsAtBlock(base, target) + [topic]
    requires forall b :: b != target ==> ActiveTopicIdsAtBlock(r, b) == ActiveTopicIdsAtBlock(base, b)
    ensures ScheduledAreListed(r)
  {
    forall t | t in r.nextChurn
      ensures t in ActiveTopicIdsAtBlock(r, r.nextChurn[t])
    {
      if t != topic {
        assert t in ActiveTopicIdsAtBlock(base, base.nextChurn[t]);
      }
    }
  }

  lemma ScheduleFreshKeepsListedScheduled(base: State, r: State, topic: TopicId, target: BlockHeight)
    requires ListedAreScheduled(base)
    requires topic !in base.nextChurn
    requires r.nextChurn == base.nextChurn[topic := target]
    requires ActiveTopicIdsAtBlock(r, target) == ActiveTopicIdsAtBlock(base, target) + [topic]
    requires forall b :: b != target ==> ActiveTopicIdsAtBlock(r, b) == ActiveTopicIdsAtBlock(base, b)
    ensures ListedAreScheduled(r)
  {
    forall b, t | t in ActiveTopicIdsAtBlock(r, b)
      ensures t in r.nextChurn && r.nextChurn[t] == b
    {
      if b != target || t != topic {
        assert t in ActiveTopicIdsAtBlock(base, b);
      }
    }
  }

  /** The state a successful admission builds its target list on: the
      state itself below the limit, the state after evicting the cached
      lowest topic at the limit. */
  ghost function AdmissionBase(s: State, topic: TopicId, block: BlockHeight, env: Env): State {
    if |ActiveTopicIdsAtBlock(s, block)| < env.maxActiveTopicsPerBlock then s
    else InactivateTopicWithoutMinWeightReset(s, LowestActiveTopicWeightAtBlock(s, block).0.topicId, env).0
  }

  /** Under consistency the two phases of admission agree: the list the
      admission stores is the base state's own list at the target with the
      candidate appended, so the eviction's write is not lost. */
  lemma AdmissionOverConsistent(s: State, topic: TopicId, block: BlockHeight, env: Env)
    requires Consistent(s, env) && topic !in s.nextChurn
    requires AddTopicToActiveSetRespectingLimits(s, topic, block, env).Ok?
    requires AddTopicToActiveSetRespectingLimits(s, topic, block, env).value.1
    ensures
      var base := AdmissionBase(s, topic, block, env);
      var adm := AddTopicToActiveSetRespectingLimits(s, topic, block, env).value.0;
      && Consistent(base, env) && topic !in base.nextChurn
      && adm.nextChurn == base.nextChurn && adm.active == base.active
      && ActiveTopicIdsAtBlock(adm, block) == ActiveTopicIdsAtBlock(base, block) + [topic]
      && (forall b :: b != block ==> ActiveTopicIdsAtBlock(adm, b) == ActiveTopicIdsAtBlock(base, b))
  {
    var ids := ActiveTopicIdsAtBlock(s, block);
    if |ids| >= env.maxActiveTopicsPerBlock {
      var low := LowestActiveTopicWeightAtBlock(s, block).0.topicId;
      TeardownKeepsConsistency(s, low, env);
      if low !in s.nextChurn || s.nextChurn[low] != block {
        assert low !in ids;
      }
    }
  }

  /** One admitted activation, spelled out step by step. */
  lemma ActivateUnfold(s: State, topic: TopicId, env: Env, admitted: State)
    requires Registered(env, topic) && !Pending(s, topic, env)
    requires AddTopicToActiveSetRespectingLimits(s, topic, EpochEndBlock(topic, env), env) == Ok((admitted, true))
    ensures
      var target := EpochEndBlock(topic, env);
      var scheduled := admitted.(nextChurn := admitted.nextChurn[topic := target]);
      var reset := ResetLowestActiveTopicWeightAtBlock(scheduled, target, env.weight);
      ActivateTopic(s, topic, env) == Ok(reset.(active := reset.active + {topic}))
  {
  }

  /** Activation keeps consistency when the topic's epoch length is not
      negative, so that its new churn block is still pending. */
  lemma ActivateKeepsConsistency(s: State, topic: TopicId, env: Env)
    requires Consistent(s, env)
    requires Registered(env, topic) ==> env.epochLength[topic] >= 0
    ensures
      var r := ActivateTopic(s, topic, env);
      r.Ok? ==> Consistent(r.value, env)
  {
    if Registered(env, topic) && !Pending(s, topic, env) {
      var adm := AddTopicToActiveSetRespectingLimits(s, topic, EpochEndBlock(topic, env), env);
      if adm.Ok? && adm.value.1 {
        AdmittedActivationKeepsConsistency(s, topic, env, adm.value.0);
      }
    }
  }

  /** The admitted case of the lemma above. */
  lemma AdmittedActivationKeepsConsistency(s: State, topic: TopicId, env: Env, admitted: State)
    requires Consistent(s, env)
    requires Registered(env, topic) && env.epochLength[topic] >= 0 && !Pending(s, topic, env)
    requires AddTopicToActiveSetRespectingLimits(s, topic, EpochEndBlock(topic, env), env) == Ok((admitted, true))
    ensures ActivateTopic(s, topic, env).Ok?
    ensures Consistent(ActivateTopic(s, topic, env).value, env)
  {
    var target := EpochEndBlock(topic, env);
    assert topic !in s.nextChurn;
    AdmissionOverConsistent(s, topic, target, env);
    var base := AdmissionBase(s, topic, target, env);
    ActivateUnfold(s, topic, env, admitted);
    var scheduled := admitted.(nextChurn := admitted.nextChurn[topic := target]);
    assert ActiveTopicIdsAtBlock(scheduled, target) != [];
    var reset := ResetLowestActiveTopicWeightAtBlock(scheduled, target, env.weight);
    var final := reset.(active := reset.active + {topic});
    assert final.activeAt == admitted.activeAt;
    assert final.nextChurn == base.nextChurn[topic := target];
    assert final.active == base.active + {topic};
    ScheduleFreshKeepsConsistency(base, final, topic, target, env);
  }

  /** Public inactivation keeps consistency. */
  lemma InactivateKeepsConsistency(s: State, topic: TopicId, env: Env)
    requires Consistent(s, env)
    ensures Consistent(InactivateTopic(s, topic, env), env)
  {
    TeardownKeepsConsistency(s, topic, env);
  }
}
