/** Read access to the scheduler's stores, with the not-found defaults of
    the source, and block pruning. */
module Store {
  import opened Types

  /** The block at which `topic` next churns and whether that churn is still
      pending at `currentBlock`; the reserved block and "not pending" when the
      topic has no schedule entry. */
  function NextPossibleChurningBlock(s: State, topic: TopicId, currentBlock: BlockHeight): (r: (BlockHeight, bool))
    ensures r.1 <==> topic in s.nextChurn && s.nextChurn[topic] >= currentBlock
    ensures topic !in s.nextChurn ==> r.0 == ReservedBlock
    ensures topic in s.nextChurn ==> r.0 == s.nextChurn[topic]
  {
    if topic in s.nextChurn then
      var block := s.nextChurn[topic];
      (block, block >= currentBlock)
    else (ReservedBlock, false)
  }

  /** The ordered ids active at `block`; empty when the block has no entry. */
  function ActiveTopicIdsAtBlock(s: State, block: BlockHeight): (ids: seq<TopicId>)
    ensures block in s.activeAt ==> ids == s.activeAt[block]
    ensures block !in s.activeAt ==> ids == []
  {
    if block in s.activeAt then s.activeAt[block] else []
  }

  /** The cached lowest (topic, weight) at `block`, and whether the block has
      no cached record; the zero pair when it has none. */
  function LowestActiveTopicWeightAtBlock(s: State, block: BlockHeight): (r: (TopicWeight, bool))
    ensures r.1 <==> block !in s.lowestAt
    ensures block in s.lowestAt ==> r.0 == s.lowestAt[block]
    ensures block !in s.lowestAt ==> r.0 == ZeroPair
  {
    if block in s.lowestAt then (s.lowestAt[block], false) else (ZeroPair, true)
  }

  /** Two states agree on what every query reports about `block`. */
  ghost predicate SameAtBlock(s: State, s': State, block: BlockHeight) {
    && ActiveTopicIdsAtBlock(s, block) == ActiveTopicIdsAtBlock(s', block)
    && LowestActiveTopicWeightAtBlock(s, block) == LowestActiveTopicWeightAtBlock(s', block)
  }

  /** Drops the active list and the cached minimum of `block`; every other
      key of every store is left alone. */
  function PruneTopicActivationDataAtBlock(s: State, block: BlockHeight): (r: State)
    ensures ActiveTopicIdsAtBlock(r, block) == []
    ensures LowestActiveTopicWeightAtBlock(r, block).1
    ensures block !in r.activeAt && block !in r.lowestAt
    ensures forall b :: b != block ==> SameAtBlock(s, r, b)
    ensures r.activeAt.Keys == s.activeAt.Keys - {block}
    ensures r.lowestAt.Keys == s.lowestAt.Keys - {block}
    ensures r.nextChurn == s.nextChurn && r.active == s.active
  {
    s.(activeAt := s.activeAt - {block}, lowestAt := s.lowestAt - {block})
  }

  /** Pruning a block that has neither a list nor a cached minimum changes
      nothing. */
  lemma PruneAbsentIsNoop(s: State, block: BlockHeight)
    requires block !in s.activeAt && block !in s.lowestAt
    ensures PruneTopicActivationDataAtBlock(s, block) == s
  {
    var r := PruneTopicActivationDataAtBlock(s, block);
    assert r.activeAt == s.activeAt;
    assert r.lowestAt == s.lowestAt;
  }

  /** Pruning the same block twice is the same as pruning it once. */
  lemma PruneIdempotent(s: State, block: BlockHeight)
    ensures
      var once := PruneTopicActivationDataAtBlock(s, block);
      PruneTopicActivationDataAtBlock(once, block) == once
  {
    PruneAbsentIsNoop(PruneTopicActivationDataAtBlock(s, block), block);
  }
}
