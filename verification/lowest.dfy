/** Recomputing the cached lowest-weight member of a block's active list. */
module Lowest {
  import opened Types
  import opened Store

  /** Among the first `k` members, `i` is the earliest one whose weight is
      available and not undercut by any other member with a weight. */
  ghost predicate FirstLowestAmong(ids: seq<TopicId>, weight: map<TopicId, int>, k: int, i: int) {
    && 0 <= i < k <= |ids|
    && ids[i] in weight
    && (forall j :: 0 <= j < k && ids[j] in weight ==> weight[ids[i]] <= weight[ids[j]])
    && (forall j :: 0 <= j < i && ids[j] in weight ==> weight[ids[i]] < weight[ids[j]])
  }

  /** `i` is the earliest member of the whole list reaching the lowest
      available weight. */
  ghost predicate IsFirstLowest(ids: seq<TopicId>, weight: map<TopicId, int>, i: int) {
    FirstLowestAmong(ids, weight, |ids|, i)
  }

  /** No member of the list has an available weight. */
  ghost predicate NoneWeighed(ids: seq<TopicId>, weight: map<TopicId, int>) {
    forall j :: 0 <= j < |ids| ==> ids[j] !in weight
  }

  /** What the scan knows after looking at the first `k` members: `best` is
      absent exactly while none of them had a weight. */
  ghost predicate ScanState(ids: seq<TopicId>, weight: map<TopicId, int>, k: nat, best: Option<nat>) {
    && k <= |ids|
    && (best.None? ==> forall j :: 0 <= j < k ==> ids[j] !in weight)
    && (best.Some? ==> FirstLowestAmong(ids, weight, k, best.value))
  }

  /** The recompute loop from member `k` on. Members whose weight lookup
      fails are skipped; the first member with a weight seeds the minimum
      and a later one replaces it only when strictly lighter. */
  function ScanLowest(ids: seq<TopicId>, weight: map<TopicId, int>, k: nat, best: Option<nat>): (r: Option<nat>)
    requires ScanState(ids, weight, k, best)
    ensures ScanState(ids, weight, |ids|, r)
    decreases |ids| - k
  {
    if k == |ids| then best
    else if ids[k] !in weight then ScanLowest(ids, weight, k + 1, best)
    else if best.None? || weight[ids[k]] < weight[ids[best.value]] then ScanLowest(ids, weight, k + 1, Some(k))
    else ScanLowest(ids, weight, k + 1, best)
  }

  /** Position of the first lowest-weight member, if any member has a weight. */
  function FirstLowestIndex(ids: seq<TopicId>, weight: map<TopicId, int>): (r: Option<nat>)
    ensures r.None? <==> NoneWeighed(ids, weight)
    ensures r.Some? ==> IsFirstLowest(ids, weight, r.value)
  {
    ScanLowest(ids, weight, 0, None)
  }

  /** At most one position is the first lowest one, so the index above is
      fully determined by its contract. */
  lemma FirstLowestUnique(ids: seq<TopicId>, weight: map<TopicId, int>, i: int, i': int)
    requires IsFirstLowest(ids, weight, i) && IsFirstLowest(ids, weight, i')
    ensures i == i'
  {
  }

  /** The pair a recompute stores for a non-empty list: the first lowest
      member with its weight, or the zero pair when no weight is available. */
  function LowestPair(ids: seq<TopicId>, weight: map<TopicId, int>): (p: TopicWeight)
    ensures NoneWeighed(ids, weight) ==> p == ZeroPair
    ensures !NoneWeighed(ids, weight) ==>
      exists i :: IsFirstLowest(ids, weight, i) && p == TopicWeight(ids[i], weight[ids[i]])
    ensures !NoneWeighed(ids, weight) ==>
      p.topicId in ids && p.topicId in weight && p.weight == weight[p.topicId]
    ensures forall j :: 0 <= j < |ids| && ids[j] in weight ==> p.weight <= weight[ids[j]]
  {
    match FirstLowestIndex(ids, weight)
    case Some(i) => TopicWeight(ids[i], weight[ids[i]])
    case None => ZeroPair
  }

  /** Recomputes the cached minimum of `block` from its current list. An
      empty list prunes the block instead of caching anything. */
  function ResetLowestActiveTopicWeightAtBlock(s: State, block: BlockHeight, weight: map<TopicId, int>): (r: State)
    ensures ActiveTopicIdsAtBlock(s, block) == [] ==> r == PruneTopicActivationDataAtBlock(s, block)
    ensures ActiveTopicIdsAtBlock(s, block) != [] ==>
      && r.activeAt == s.activeAt && r.nextChurn == s.nextChurn && r.active == s.active
      && r.lowestAt == s.lowestAt[block := LowestPair(ActiveTopicIdsAtBlock(s, block), weight)]
    ensures r.nextChurn == s.nextChurn && r.active == s.active
    ensures forall b :: b != block ==> SameAtBlock(s, r, b)
  {
    var ids := ActiveTopicIdsAtBlock(s, block);
    if |ids| == 0 then PruneTopicActivationDataAtBlock(s, block)
    else s.(lowestAt := s.lowestAt[block := LowestPair(ids, weight)])
  }

  /** After a recompute over a list that has at least one weighed member,
      the cache names a member of the list, carrying its current weight and
      no more than any other weighed member's. */
  lemma ResetNamesLightestMember(s: State, block: BlockHeight, weight: map<TopicId, int>)
    requires !NoneWeighed(ActiveTopicIdsAtBlock(s, block), weight)
    ensures
      var r := ResetLowestActiveTopicWeightAtBlock(s, block, weight);
      var ids := ActiveTopicIdsAtBlock(s, block);
      && block in r.lowestAt
      && r.lowestAt[block].topicId in ids
      && r.lowestAt[block].topicId in weight
      && r.lowestAt[block].weight == weight[r.lowestAt[block].topicId]
      && (forall t :: t in ids && t in weight ==> r.lowestAt[block].weight <= weight[t])
  {
    var ids := ActiveTopicIdsAtBlock(s, block);
    var r := ResetLowestActiveTopicWeightAtBlock(s, block, weight);
    assert ids != [];
    var p := LowestPair(ids, weight);
    forall t | t in ids && t in weight
      ensures p.weight <= weight[t]
    {
      var j :| 0 <= j < |ids| && ids[j] == t;
    }
  }
}
