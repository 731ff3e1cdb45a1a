/** Teardown, limit-respecting admission and the three public entry points
    of the topic-activation scheduler. */
module Activation {
  import opened Types
  import opened Seqs
  import opened Store
  import opened Lowest

  /** The topic is registered and its scheduled churn has not yet passed. */
  predicate Pending(s: State, topic: TopicId, env: Env) {
    Registered(env, topic) && NextPossibleChurningBlock(s, topic, env.currentBlock).1
  }

  /** Marks `topic` inactive without touching any cached minimum, and returns
      the block it was scheduled at. A topic that is unregistered or not
      pending is left alone. Otherwise its first occurrence is cut from its
      block's list, its schedule entry and its active flag are dropped. When
      the topic is missing from that list, the list is overwritten with an
      empty one, as the source does. */
  function InactivateTopicWithoutMinWeightReset(s: State, topic: TopicId, env: Env): (r: (State, BlockHeight))
    ensures !Registered(env, topic) ==> r == (s, ReservedBlock)
    ensures Registered(env, topic) && !Pending(s, topic, env) ==>
      r.0 == s && r.1 == (if topic in s.nextChurn then s.nextChurn[topic] else ReservedBlock)
    ensures Pending(s, topic, env) ==>
      var block := s.nextChurn[topic];
      var ids := ActiveTopicIdsAtBlock(s, block);
      && r.1 == block
      && ActiveTopicIdsAtBlock(r.0, block) == (if topic in ids then RemoveFirst(ids, topic) else [])
      && block in r.0.activeAt
      && (forall b :: b != block ==> ActiveTopicIdsAtBlock(r.0, b) == ActiveTopicIdsAtBlock(s, b))
      && r.0.activeAt.Keys == s.activeAt.Keys + {block}
      && NextPossibleChurningBlock(r.0, topic, env.currentBlock) == (ReservedBlock, false)
      && (forall t :: t != topic ==> NextPossibleChurningBlock(r.0, t, env.currentBlock) == NextPossibleChurningBlock(s, t, env.currentBlock))
      && r.0.nextChurn.Keys == s.nextChurn.Keys - {topic}
      && r.0.active == s.active - {topic}
    ensures r.0.lowestAt == s.lowestAt
    ensures forall t :: t in r.0.nextChurn ==> t in s.nextChurn && r.0.nextChurn[t] == s.nextChurn[t]
    ensures r.0.active <= s.active
  {
    if !Registered(env, topic) then (s, ReservedBlock)
    else
      var (block, pending) := NextPossibleChurningBlock(s, topic, env.currentBlock);
      if !pending then (s, block)
      else
        var ids := ActiveTopicIdsAtBlock(s, block);
        var kept := if topic in ids then RemoveFirst(ids, topic) else [];
        (State(s.nextChurn - {topic}, s.activeAt[block := kept], s.lowestAt, s.active - {topic}), block)
  }

  /** The list the admission stores at its target block: the candidate is
      appended after the eviction target, if any, has been cut out. */
  function AdmittedList(ids: seq<TopicId>, evicted: Option<TopicId>, topic: TopicId): (l: seq<TopicId>)
    ensures evicted.None? ==> l == ids + [topic]
    ensures evicted.Some? ==> l == RemoveFirst(ids, evicted.value) + [topic]
    ensures |l| == |ids| + 1 - (if evicted.Some? && evicted.value in ids then 1 else 0)
  {
    match evicted
    case None => ids + [topic]
    case Some(low) => RemoveFirst(ids, low) + [topic]
  }

  /** Tries to place `topic` in the active list of `block` and reports
      whether it did. It writes nothing and answers false when the topic is
      already listed there, or when the list is at the limit and the topic
      weighs strictly less than the block's cached lowest. At the limit with
      a weight at least the cached lowest, the cached-lowest topic is torn
      down and cut from the working list before the append. The cached
      minimum itself is never written here. */
  function AddTopicToActiveSetRespectingLimits(s: State, topic: TopicId, block: BlockHeight, env: Env): (r: Result<(State, bool)>)
    ensures
      var ids := ActiveTopicIdsAtBlock(s, block);
      r.Err? <==> topic !in ids && |ids| >= env.maxActiveTopicsPerBlock && topic !in env.weight
    ensures r.Err? ==> r.error == WeightUnavailable(topic)
    ensures r.Ok? && !r.value.1 ==> r.value.0 == s
    ensures r.Ok? ==>
      var ids := ActiveTopicIdsAtBlock(s, block);
      var low := LowestActiveTopicWeightAtBlock(s, block).0;
      (!r.value.1 <==>
        topic in ids ||
        (|ids| >= env.maxActiveTopicsPerBlock && topic in env.weight && env.weight[topic] < low.weight))
    ensures r.Ok? ==> r.value.0.lowestAt == s.lowestAt
    ensures r.Ok? && r.value.1 ==>
      var ids := ActiveTopicIdsAtBlock(s, block);
      |ids| < env.maxActiveTopicsPerBlock ==>
        && ActiveTopicIdsAtBlock(r.value.0, block) == ids + [topic]
        && |ActiveTopicIdsAtBlock(r.value.0, block)| <= env.maxActiveTopicsPerBlock
        && r.value.0.nextChurn == s.nextChurn && r.value.0.active == s.active
        && (forall b :: b != block ==> ActiveTopicIdsAtBlock(r.value.0, b) == ActiveTopicIdsAtBlock(s, b))
    ensures r.Ok? && r.value.1 ==>
      var ids := ActiveTopicIdsAtBlock(s, block);
      var low := LowestActiveTopicWeightAtBlock(s, block).0.topicId;
      var torn := InactivateTopicWithoutMinWeightReset(s, low, env).0;
      |ids| >= env.maxActiveTopicsPerBlock ==>
        && ActiveTopicIdsAtBlock(r.value.0, block) == RemoveFirst(ids, low) + [topic]
        && (low in ids ==> |ActiveTopicIdsAtBlock(r.value.0, block)| == |ids|)
        && r.value.0.nextChurn == torn.nextChurn && r.value.0.active == torn.active
        && (forall b :: b != block ==> ActiveTopicIdsAtBlock(r.value.0, b) == ActiveTopicIdsAtBlock(torn, b))
    ensures r.Ok? && r.value.1 ==> block in r.value.0.activeAt && topic in r.value.0.activeAt[block]
  {
    var ids := ActiveTopicIdsAtBlock(s, block);
    if topic in ids then Ok((s, false))
    else if |ids| < env.maxActiveTopicsPerBlock then
      Ok((s.(activeAt := s.activeAt[block := AdmittedList(ids, None, topic)]), true))
    else
      var (lowest, _) := LowestActiveTopicWeightAtBlock(s, block);
      if topic !in env.weight then Err(WeightUnavailable(topic))
      else if env.weight[topic] < lowest.weight then Ok((s, false))
      else
        var (torn, _) := InactivateTopicWithoutMinWeightReset(s, lowest.topicId, env);
        Ok((torn.(activeAt := torn.activeAt[block := AdmittedList(ids, Some(lowest.topicId), topic)]), true))
  }

  /** The block a topic is scheduled at when (re)activated now. */
  function EpochEndBlock(topic: TopicId, env: Env): BlockHeight
    requires Registered(env, topic)
  {
    env.currentBlock + env.epochLength[topic]
  }

  /** Activates a registered topic that has no pending churn: admits it at
      the end of its epoch, schedules it there, recomputes that block's
      cached minimum and flags it active. Unregistered and already pending
      topics, and rejected admissions, change nothing. */
  function ActivateTopic(s: State, topic: TopicId, env: Env): (r: Result<State>)
    ensures !Registered(env, topic) || Pending(s, topic, env) ==> r == Ok(s)
    ensures Registered(env, topic) && !Pending(s, topic, env) ==>
      var target := EpochEndBlock(topic, env);
      var adm := AddTopicToActiveSetRespectingLimits(s, topic, target, env);
      && (r.Err? <==> adm.Err?)
      && (adm.Err? ==> r == Err(adm.error))
      && (adm.Ok? && !adm.value.1 ==> r == Ok(s))
      && (adm.Ok? && adm.value.1 ==>
           && r.Ok?
           && NextPossibleChurningBlock(r.value, topic, env.currentBlock) == (target, target >= env.currentBlock)
           && r.value.nextChurn == adm.value.0.nextChurn[topic := target]
           && ActiveTopicIdsAtBlock(r.value, target) == ActiveTopicIdsAtBlock(adm.value.0, target)
           && topic in ActiveTopicIdsAtBlock(r.value, target)
           && target in r.value.lowestAt
           && r.value.lowestAt[target] == LowestPair(ActiveTopicIdsAtBlock(r.value, target), env.weight)
           && r.value.active == adm.value.0.active + {topic}
           && (forall b :: b != target ==> SameAtBlock(r.value, adm.value.0, b)))
    ensures r.Ok? && r.value != s ==> Registered(env, topic) && !Pending(s, topic, env) && topic in r.value.active
  {
    if !Registered(env, topic) then Ok(s)
    else if NextPossibleChurningBlock(s, topic, env.currentBlock).1 then Ok(s)
    else
      var target := EpochEndBlock(topic, env);
      match AddTopicToActiveSetRespectingLimits(s, topic, target, env)
      case Err(e) => Err(e)
      case Ok((admitted, added)) =>
        if !added then Ok(s)
        else
          var scheduled := admitted.(nextChurn := admitted.nextChurn[topic := target]);
          var reset := ResetLowestActiveTopicWeightAtBlock(scheduled, target, env.weight);
          Ok(reset.(active := reset.active + {topic}))
  }

  /** Public inactivation: the teardown alone, so the vacated block's cached
      minimum is left as it was. */
  function InactivateTopic(s: State, topic: TopicId, env: Env): (r: State)
    ensures r.lowestAt == s.lowestAt
    ensures r == InactivateTopicWithoutMinWeightReset(s, topic, env).0
    ensures NextPossibleChurningBlock(r, topic, env.currentBlock).1 ==> !Registered(env, topic)
  {
    InactivateTopicWithoutMinWeightReset(s, topic, env).0
  }

  /** Re-admits `topic` at the end of a fresh epoch counted from now. An
      unregistered topic is an error. On admission the topic is rescheduled
      and the target block's minimum recomputed; the active flag is neither
      checked nor set, and the topic is not removed from any list it was
      already in. */
  function UpdateActiveTopic(s: State, topic: TopicId, env: Env): (r: Result<State>)
    ensures !Registered(env, topic) ==> r == Err(TopicNotFound(topic))
    ensures Registered(env, topic) ==>
      var target := EpochEndBlock(topic, env);
      var adm := AddTopicToActiveSetRespectingLimits(s, topic, target, env);
      && (r.Err? <==> adm.Err?)
      && (adm.Err? ==> r == Err(adm.error))
      && (adm.Ok? && !adm.value.1 ==> r == Ok(s))
      && (adm.Ok? && adm.value.1 ==>
           && r.Ok?
           && NextPossibleChurningBlock(r.value, topic, env.currentBlock) == (target, target >= env.currentBlock)
           && r.value.nextChurn == adm.value.0.nextChurn[topic := target]
           && ActiveTopicIdsAtBlock(r.value, target) == ActiveTopicIdsAtBlock(adm.value.0, target)
           && topic in ActiveTopicIdsAtBlock(r.value, target)
           && target in r.value.lowestAt
           && r.value.lowestAt[target] == LowestPair(ActiveTopicIdsAtBlock(r.value, target), env.weight)
           && r.value.active == adm.value.0.active
           && (forall b :: b != target ==> SameAtBlock(r.value, adm.value.0, b)))
    ensures r.Ok? ==> r.value.active <= s.active
  {
    if !Registered(env, topic) then Err(TopicNotFound(topic))
    else
      var target := EpochEndBlock(topic, env);
      match AddTopicToActiveSetRespectingLimits(s, topic, target, env)
      case Err(e) => Err(e)
      case Ok((admitted, added)) =>
        if !added then Ok(s)
        else
          var scheduled := admitted.(nextChurn := admitted.nextChurn[topic := target]);
          Ok(ResetLowestActiveTopicWeightAtBlock(scheduled, target, env.weight))
  }
}
