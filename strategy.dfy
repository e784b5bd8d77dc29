/**
 `MixedInstanceAssignmentStrategy#assign`: the specification `Assignment` of what the group
 assignment is (or which exception is raised), the imperative `Assign` that builds it with the
 three loops of the source, and the properties of the result.
 */
module Strategy {
  import opened Wrappers
  import opened Numeric
  import opened Capacity
  import opened Hosts
  import opened Distribution

  /** `group_assignment`: member id to the `(topic, partition)` pairs assigned to it, in order. */
  type GroupAssignment = map<string, seq<TopicPartition>>

  /**
   The result of `assign(members:, topics:)`, with `topic_partitions` already looked up:
   the error of the first member whose metadata cannot be read; else, when the total capacity
   is zero, the error of line 67 (Integer) or of rounding NaN at line 70 (Float); else every
   member mapped to the partitions at the positions it owns.
   */
  function Assignment(members: seq<string>, metadata: map<string, string>, config: Config,
                      tps: seq<TopicPartition>): (r: Result<GroupAssignment, AssignError>)
    requires ValidConfig(config)
    ensures r.Success? ==> r.value.Keys == set m | m in members
  {
    match HostsOf(members, metadata, config)
    case Failure(e) => Failure(e)
    case Success(t) =>
      if Value(t.total) == 0.0 then Failure(if t.total.Int? then ZeroDivisionError else FloatDomainError)
      else
        WellFormedWalkable(t);
        var per := Div(Int(|tps|), t.total);
        var order := SortByCapacityDesc(t.order, t.capacity);
        var owners := Owners(order, t, per, |tps|);
        Success(Distribute(members, tps, owners))
  }

  /** Every member mapped to the partitions at the positions it owns, in position order. */
  function Distribute(members: seq<string>, tps: seq<TopicPartition>, owners: seq<string>): (r: GroupAssignment)
    requires |owners| <= |tps|
    ensures r.Keys == set m | m in members
  {
    map m | m in members :: Received(tps, owners, m)
  }

  /** A group assignment that agrees with `Distribute` on its keys is `Distribute`. */
  lemma DistributeExtensional(ga: GroupAssignment, members: seq<string>, tps: seq<TopicPartition>, owners: seq<string>)
    requires |owners| <= |tps|
    requires ga.Keys == set m | m in members
    requires forall m | m in ga :: ga[m] == Received(tps, owners, m)
    ensures ga == Distribute(members, tps, owners)
  {
  }

  /**
   Lines 72-75 and 82-85: `topic_partitions[lo...hi].each_with_index`, the partition at
   `lo + index` going to `ids[index % ids.size]`. Given the group assignment as the positions
   below `lo` made it, the result is the one the deal of `hi - lo` more positions makes.
   */
  method DealSlice(groupAssignment: GroupAssignment, tps: seq<TopicPartition>, lo: nat, hi: nat,
                   ids: seq<string>, ghost owners: seq<string>)
    returns (result: GroupAssignment)
    requires lo <= hi <= |tps| && |owners| == lo && |ids| > 0
    requires forall m | m in ids :: m in groupAssignment
    requires forall m | m in groupAssignment :: groupAssignment[m] == Received(tps, owners, m)
    ensures result.Keys == groupAssignment.Keys
    ensures forall m | m in result :: result[m] == Received(tps, owners + Deal(ids, hi - lo), m)
  {
    result := groupAssignment;
    var index := 0;
    assert owners + Deal(ids, 0) == owners;
    while index < hi - lo
      invariant 0 <= index <= hi - lo
      invariant result.Keys == groupAssignment.Keys
      invariant forall m | m in result :: result[m] == Received(tps, owners + Deal(ids, index), m)
    {
      var memberId := ids[index % |ids|];
      ghost var dealt := owners + Deal(ids, index);
      result := result[memberId := result[memberId] + [tps[lo + index]]];
      DealSnoc(ids, index);
      assert owners + Deal(ids, index + 1) == dealt + [memberId];
      forall m | m in result
        ensures result[m] == Received(tps, dealt + [memberId], m)
      {
        ReceivedStep(tps, dealt, memberId, m);
      }
      index := index + 1;
    }
  }

  /** Every member id the accumulators hold is one of `members`. */
  predicate MembersWithin(t: HostTable, members: seq<string>)
  {
    forall id, m | id in t.memberIds && m in t.memberIds[id] :: m in members
  }

  lemma RecordWithin(t: HostTable, memberId: string, p: Profile, members: seq<string>)
    requires WellFormed(t) && Value(p.capacity) >= 0.0
    requires memberId in members && MembersWithin(t, members)
    ensures MembersWithin(Record(t, memberId, p), members)
  {
  }

  /** The group assignment after the first loop has visited `members`: each of them with `[]`. */
  ghost function Unassigned(members: seq<string>): GroupAssignment
  {
    if members == [] then map[] else Unassigned(members[..|members| - 1])[members[|members| - 1] := []]
  }

  lemma UnassignedStep(members: seq<string>, i: nat)
    requires i < |members|
    ensures Unassigned(members[..i + 1]) == Unassigned(members[..i])[members[i] := []]
  {
    assert members[..i + 1][..i] == members[..i];
  }

  lemma {:induction false} UnassignedFacts(members: seq<string>)
    ensures Unassigned(members).Keys == set m | m in members
    ensures forall m | m in Unassigned(members) :: Unassigned(members)[m] == []
  {
    if members != [] {
      var init := members[..|members| - 1];
      UnassignedFacts(init);
      assert members == init + [members[|members| - 1]];
    }
  }

  /**
   Lines 54-55: one member's instance id and capacity added to the accumulators, an instance
   not seen before starting with no members and capacity 0 (`Hash.new { [] }`, `Hash.new(0)`)
   and being appended to the insertion order.
   */
  method AddMember(order: seq<string>, instanceIdToMemberIds: map<string, seq<string>>,
                   instanceIdToCapacity: map<string, Num>, totalCapacity: Num,
                   memberId: string, profile: Profile)
    returns (order': seq<string>, instanceIdToMemberIds': map<string, seq<string>>,
             instanceIdToCapacity': map<string, Num>, totalCapacity': Num)
    requires WellFormed(HostTable(order, instanceIdToMemberIds, instanceIdToCapacity, totalCapacity))
    requires Value(profile.capacity) >= 0.0
    ensures HostTable(order', instanceIdToMemberIds', instanceIdToCapacity', totalCapacity')
         == Record(HostTable(order, instanceIdToMemberIds, instanceIdToCapacity, totalCapacity), memberId, profile)
  {
    var instanceId, capacity := profile.instanceId, profile.capacity;
    order' := if instanceId in instanceIdToMemberIds then order else order + [instanceId];
    var memberIds := if instanceId in instanceIdToMemberIds then instanceIdToMemberIds[instanceId] else [];
    var instanceCapacity := if instanceId in instanceIdToCapacity then instanceIdToCapacity[instanceId] else Int(0);
    instanceIdToMemberIds' := instanceIdToMemberIds[instanceId := memberIds + [memberId]];
    instanceIdToCapacity' := instanceIdToCapacity[instanceId := Add(instanceCapacity, capacity)];
    totalCapacity' := Add(totalCapacity, capacity);
  }

  /**
   The first loop (lines 48-56): every member gets an empty assignment, and its instance id
   and capacity are added to the three accumulators; it stops at the first member whose
   metadata cannot be read.
   */
  method Aggregate(members: seq<string>, metadata: map<string, string>, config: Config)
    returns (r: Result<(GroupAssignment, HostTable), AssignError>)
    requires ValidConfig(config)
    ensures r.Failure? ==> HostsOf(members, metadata, config) == Failure(r.error)
    ensures r.Success? ==> HostsOf(members, metadata, config) == Success(r.value.1)
    ensures r.Success? ==> r.value.0 == Unassigned(members)
    ensures r.Success? ==> MembersWithin(r.value.1, members)
  {
    ghost var ms := Resolve(members, metadata, config);
    ResolveFacts(members, metadata, config);
    var groupAssignment: GroupAssignment := map[];
    var order: seq<string> := [];
    var instanceIdToMemberIds: map<string, seq<string>> := map[];
    var instanceIdToCapacity: map<string, Num> := map[];
    var totalCapacity := Int(0);
    EmptyWellFormed();
    var i := 0;
    while i < |members|
      invariant 0 <= i <= |members|
      invariant groupAssignment == Unassigned(members[..i])
      invariant WellFormed(HostTable(order, instanceIdToMemberIds, instanceIdToCapacity, totalCapacity))
      invariant MembersWithin(HostTable(order, instanceIdToMemberIds, instanceIdToCapacity, totalCapacity), members)
      invariant NonNegative(ms[i..])
      invariant Tabulate(EmptyTable, ms)
             == Tabulate(HostTable(order, instanceIdToMemberIds, instanceIdToCapacity, totalCapacity), ms[i..])
    {
      var memberId := members[i];
      groupAssignment := groupAssignment[memberId := []];
      UnassignedStep(members, i);
      // lines 51 and 53: split the metadata, compute the capacity
      var profile := MemberProfile(memberId, metadata, config);
      assert ms[i] == Member(memberId, profile);
      ghost var before := HostTable(order, instanceIdToMemberIds, instanceIdToCapacity, totalCapacity);
      TabulateAt(before, ms, i);
      if profile.Failure? {
        return Failure(profile.error);
      }
      RecordWithin(before, memberId, profile.value, members);
      order, instanceIdToMemberIds, instanceIdToCapacity, totalCapacity :=
        AddMember(order, instanceIdToMemberIds, instanceIdToCapacity, totalCapacity, memberId, profile.value);
      i := i + 1;
    }
    assert ms[i..] == [];
    assert members[..i] == members;
    return Success((groupAssignment, HostTable(order, instanceIdToMemberIds, instanceIdToCapacity, totalCapacity)));
  }

  /**
   The block of the second loop for the instance `sorted[j]` (lines 69-77): the slice
   `topic_partitions[last_index, partition_count]` dealt over its members, then `last_index`
   advanced by `partition_count`.
   */
  method VisitInstance(groupAssignment: GroupAssignment, tps: seq<TopicPartition>, sorted: seq<string>,
                       t: HostTable, partitionCountPerCapacity: Num, j: nat, lastIndex: nat)
    returns (result: GroupAssignment, nextIndex: nat)
    requires Walkable(sorted, t) && Value(partitionCountPerCapacity) >= 0.0 && j < |sorted|
    requires forall id, m | id in t.memberIds && m in t.memberIds[id] :: m in groupAssignment
    requires lastIndex == Cursor(sorted, t, partitionCountPerCapacity, j)
    requires forall m | m in groupAssignment ::
               groupAssignment[m] == Received(tps, Primary(sorted, t, partitionCountPerCapacity, j)[..Min(lastIndex, |tps|)], m)
    ensures result.Keys == groupAssignment.Keys
    ensures nextIndex == Cursor(sorted, t, partitionCountPerCapacity, j + 1)
    ensures forall m | m in result ::
              result[m] == Received(tps, Primary(sorted, t, partitionCountPerCapacity, j + 1)[..Min(nextIndex, |tps|)], m)
  {
    var P := |tps|;
    var instanceId := sorted[j];
    var partitionCount := BlockSize(t, instanceId, partitionCountPerCapacity);  // (capacity * per).round
    var memberIds := t.memberIds[instanceId];
    if lastIndex <= P {
      // topic_partitions[last_index, partition_count] is cut at the end of the list
      var hi := Min(lastIndex + partitionCount, P);
      PrimaryStepBelow(sorted, t, partitionCountPerCapacity, P, j);
      result := DealSlice(groupAssignment, tps, lastIndex, hi, memberIds,
                          Primary(sorted, t, partitionCountPerCapacity, j)[..Min(lastIndex, P)]);
    } else {
      // past the end the slice is nil and `&.` skips the instance
      PrimaryStepAbove(sorted, t, partitionCountPerCapacity, P, j);
      result := groupAssignment;
    }
    nextIndex := lastIndex + partitionCount;
  }

  /** The second loop (lines 68-78): every instance visited in `sorted` order. */
  method PrimaryPass(groupAssignment: GroupAssignment, tps: seq<TopicPartition>, sorted: seq<string>,
                     t: HostTable, partitionCountPerCapacity: Num)
    returns (result: GroupAssignment, lastIndex: nat)
    requires Walkable(sorted, t) && Value(partitionCountPerCapacity) >= 0.0
    requires forall id, m | id in t.memberIds && m in t.memberIds[id] :: m in groupAssignment
    requires forall m | m in groupAssignment :: groupAssignment[m] == []
    ensures result.Keys == groupAssignment.Keys
    ensures lastIndex == Cursor(sorted, t, partitionCountPerCapacity, |sorted|)
    ensures forall m | m in result ::
              result[m] == Received(tps, Primary(sorted, t, partitionCountPerCapacity, |sorted|)[..Min(lastIndex, |tps|)], m)
  {
    result := groupAssignment;
    lastIndex := 0;
    var j := 0;
    while j < |sorted|
      invariant 0 <= j <= |sorted|
      invariant lastIndex == Cursor(sorted, t, partitionCountPerCapacity, j)
      invariant result.Keys == groupAssignment.Keys
      invariant forall m | m in result ::
                  result[m] == Received(tps, Primary(sorted, t, partitionCountPerCapacity, j)[..Min(lastIndex, |tps|)], m)
    {
      result, lastIndex := VisitInstance(result, tps, sorted, t, partitionCountPerCapacity, j, lastIndex);
      j := j + 1;
    }
  }

  /** Every member id on the hosts, and so every one `Flatten` lists, is a key of `ga`. */
  lemma WithinKeys(t: HostTable, members: seq<string>, ga: GroupAssignment)
    requires WellFormed(t) && MembersWithin(t, members) && ga.Keys == set m | m in members
    ensures forall id, m | id in t.memberIds && m in t.memberIds[id] :: m in ga
    ensures forall m | m in Flatten(t.order, t) :: m in ga
  {
    WellFormedWalkable(t);
    FlattenOnHosts(t.order, t);
  }

  /** The owners the two passes give: the primary blocks cut at `P`, then the overflow deal. */
  lemma OwnersAfterPrimary(order: seq<string>, t: HostTable, per: Num, P: nat, c: nat, prefix: seq<string>)
    requires Walkable(order, t) && Walkable(t.order, t) && Value(per) >= 0.0 && t.order != []
    requires c == Cursor(order, t, per, |order|) && prefix == Primary(order, t, per, |order|)[..Min(c, P)]
    ensures c < P ==> Owners(order, t, per, P) == prefix + Deal(Flatten(t.order, t), P - c)
    ensures c >= P ==> Owners(order, t, per, P) == prefix
  {
    var primary := Primary(order, t, per, |order|);
    assert primary[..|primary|] == primary;
  }

  /** `Assignment` once the first loop has succeeded with a non-zero total. */
  lemma AssignmentOnHosts(members: seq<string>, metadata: map<string, string>, config: Config,
                          tps: seq<TopicPartition>, t: HostTable)
    requires ValidConfig(config) && HostsOf(members, metadata, config) == Success(t)
    requires Value(t.total) != 0.0
    ensures WellFormed(t) && t.order != []
    ensures Walkable(t.order, t) && Walkable(SortByCapacityDesc(t.order, t.capacity), t)
    ensures Assignment(members, metadata, config, tps)
            == Success(Distribute(members, tps,
                 Owners(SortByCapacityDesc(t.order, t.capacity), t, Div(Int(|tps|), t.total), |tps|)))
  {
    ResolveFacts(members, metadata, config);
    WellFormedWalkable(t);
  }

  /** `assign`: the three loops of the source, proved to compute `Assignment`. */
  method Assign(members: seq<string>, metadata: map<string, string>, config: Config,
                topicPartitions: seq<TopicPartition>)
    returns (r: Result<GroupAssignment, AssignError>)
    requires ValidConfig(config)
    ensures r == Assignment(members, metadata, config, topicPartitions)
  {
    var aggregated := Aggregate(members, metadata, config);
    if aggregated.Failure? {
      return Failure(aggregated.error);
    }
    var (groupAssignment, t) := aggregated.value;
    // Integer / 0 raises at line 67. Float / 0.0 is Infinity there (NaN when P is 0); every
    // capacity is then 0, and line 70 raises on the first instance rounding NaN
    // (`0.0 * Infinity`, or `0.0 * NaN` when P is 0).
    if Value(t.total) == 0.0 {
      return Failure(if t.total.Int? then ZeroDivisionError else FloatDomainError);
    }
    var P := |topicPartitions|;
    var partitionCountPerCapacity := Div(Int(P), t.total);
    AssignmentOnHosts(members, metadata, config, topicPartitions, t);
    UnassignedFacts(members);
    WithinKeys(t, members, groupAssignment);
    var sorted := SortByCapacityDesc(t.order, t.capacity);
    var lastIndex;
    groupAssignment, lastIndex := PrimaryPass(groupAssignment, topicPartitions, sorted, t, partitionCountPerCapacity);
    ghost var prefix := Primary(sorted, t, partitionCountPerCapacity, |sorted|)[..Min(lastIndex, P)];
    OwnersAfterPrimary(sorted, t, partitionCountPerCapacity, P, lastIndex, prefix);
    if lastIndex < P {
      var memberIds := Flatten(t.order, t);
      groupAssignment := DealSlice(groupAssignment, topicPartitions, lastIndex, P, memberIds, prefix);
    }
    DistributeExtensional(groupAssignment, members, topicPartitions, Owners(sorted, t, partitionCountPerCapacity, P));
    r := Success(groupAssignment);
  }
}
