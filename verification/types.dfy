/** Data model of the topic-activation scheduler: the four keyed stores it
    owns, the external collaborators it consults, and its error outcomes. */
module Types {

  /** Block heights are signed 64-bit in the source; modelled unbounded. */
  type BlockHeight = int

  /** Topic ids are unsigned 64-bit in the source; modelled unbounded. */
  type TopicId = nat

  /** The block reported for a topic that has no schedule entry. */
  const ReservedBlock: BlockHeight := 0

  /** A topic together with its weight. Weights are decimals in the source,
      which only ever compares them, so any totally ordered type will do. */
  datatype TopicWeight = TopicWeight(topicId: TopicId, weight: int)

  /** The pair stored when a block's minimum has never been recorded, and
      the pair a recompute stores when no member's weight is available. */
  const ZeroPair: TopicWeight := TopicWeight(0, 0)

  /** The scheduler's persistent state: one field per keyed store. */
  datatype State = State(
    nextChurn: map<TopicId, BlockHeight>,       // topic -> block at which it next churns
    activeAt: map<BlockHeight, seq<TopicId>>,   // block -> ordered active topic ids
    lowestAt: map<BlockHeight, TopicWeight>,    // block -> cached lowest (topic, weight)
    active: set<TopicId>                        // topics flagged active
  )

  const EmptyState: State := State(map[], map[], map[], {})

  /** What the scheduler reads from outside its own stores during one call.
      A topic is registered iff it has an epoch length; a weight lookup
      fails iff the topic has no entry in `weight`. */
  datatype Env = Env(
    currentBlock: BlockHeight,
    maxActiveTopicsPerBlock: nat,
    epochLength: map<TopicId, int>,
    weight: map<TopicId, int>
  )

  predicate Registered(env: Env, topic: TopicId) {
    topic in env.epochLength
  }

  /** Errors that abort a call. Store I/O failures are not modelled. */
  datatype Error =
    | WeightUnavailable(topic: TopicId)   // the candidate's own weight lookup failed
    | TopicNotFound(topic: TopicId)       // the topic registry has no such topic

  datatype Result<+T> = Ok(value: T) | Err(error: Error)

  datatype Option<+T> = None | Some(value: T)
}
