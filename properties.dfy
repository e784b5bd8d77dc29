/**
 What `assign` promises about its result, proved of `Strategy.Assignment` (and so, through
 `Strategy.Assign`'s postcondition, of the three loops).
 */
module Properties {
  import opened Wrappers
  import opened Numeric
  import opened Capacity
  import opened Hosts
  import opened Distribution
  import opened Strategy

  /** The lists of the members `ks`, one after the other. */
  function Gather(a: GroupAssignment, ks: seq<string>): seq<TopicPartition>
    requires forall k | k in ks :: k in a
  {
    if ks == [] then [] else a[ks[0]] + Gather(a, ks[1..])
  }

  lemma {:induction false} GatherDistribute(members: seq<string>, tps: seq<TopicPartition>, owners: seq<string>,
                                            ks: seq<string>)
    requires |owners| <= |tps| && forall k | k in ks :: k in members
    ensures Gather(Distribute(members, tps, owners), ks) == Collect(tps, owners, ks)
  {
    if ks != [] {
      GatherDistribute(members, tps, owners, ks[1..]);
    }
  }

  /** Every member id the host table lists is one of the members. */
  lemma HostsWithin(members: seq<string>, metadata: map<string, string>, config: Config, t: HostTable)
    requires ValidConfig(config) && HostsOf(members, metadata, config) == Success(t)
    ensures MembersWithin(t, members)
  {
    var ms := Resolve(members, metadata, config);
    ResolveFacts(members, metadata, config);
    forall id, m | id in t.memberIds && m in t.memberIds[id] ensures m in members {
      HostMembersAreMembers(ms, id, m);
      var i :| 0 <= i < |ms| && ms[i].id == m;
      assert members[i] == m;
    }
  }

  /**
   Completeness: over the members, each listed once in any order, the assigned lists together
   hold every `(topic, partition)` exactly once, with nothing left out and nothing added.
   */
  lemma AssignmentComplete(members: seq<string>, metadata: map<string, string>, config: Config,
                           tps: seq<TopicPartition>, ks: seq<string>)
    requires ValidConfig(config) && Assignment(members, metadata, config, tps).Success?
    requires Distinct(ks) && forall k :: k in ks <==> k in members
    ensures forall k | k in ks :: k in Assignment(members, metadata, config, tps).value
    ensures multiset(Gather(Assignment(members, metadata, config, tps).value, ks)) == multiset(tps)
  {
    var t := HostsOf(members, metadata, config).value;
    AssignmentOnHosts(members, metadata, config, tps, t);
    var order := SortByCapacityDesc(t.order, t.capacity);
    var per := Div(Int(|tps|), t.total);
    var owners := Owners(order, t, per, |tps|);
    HostsWithin(members, metadata, config, t);
    OwnersOnHosts(order, t, per, |tps|);
    forall i | 0 <= i < |owners| ensures owners[i] in ks {
      assert OnHosts(owners[i], t);
    }
    GatherDistribute(members, tps, owners, ks);
    CollectComplete(tps, owners, ks);
    assert tps[..|owners|] == tps;
  }

  /**
   The overflow deals over every member: `instance_id_to_member_ids.values.flatten` holds
   exactly the members of the group.
   */
  lemma FlattenAllMembers(members: seq<string>, metadata: map<string, string>, config: Config, t: HostTable)
    requires ValidConfig(config) && HostsOf(members, metadata, config) == Success(t)
    ensures forall m :: m in Flatten(t.order, t) <==> m in members
  {
    var ms := Resolve(members, metadata, config);
    ResolveFacts(members, metadata, config);
    WellFormedWalkable(t);
    HostsWithin(members, metadata, config, t);
    FlattenOnHosts(t.order, t);
    forall i | 0 <= i < |members| ensures members[i] in Flatten(t.order, t) {
      var id := ms[i].profile.value.instanceId;
      MembersOnContains(ms, i);
      HostMembers(ms, id);
      assert ms[i].id == members[i];
      assert id in t.memberIds;
    }
  }

  /** The members found on one instance are distinct when the members' ids are. */
  lemma {:induction false} MembersOnDistinct(ms: seq<Member>, id: string)
    requires AllResolved(ms) && forall i, j | 0 <= i < j < |ms| :: ms[i].id != ms[j].id
    ensures Distinct(MembersOn(ms, id))
    decreases |ms|
  {
    if ms != [] {
      TailFacts(ms);
      var tail := MembersOn(ms[1..], id);
      MembersOnDistinct(ms[1..], id);
      if ms[0].profile.value.instanceId == id {
        forall m | m in tail ensures m != ms[0].id {
          MembersOnAreMembers(ms[1..], id, m);
          var i :| 0 <= i < |ms[1..]| && ms[1..][i].id == m;
          assert ms[i + 1].id == m;
        }
        var s := [ms[0].id] + tail;
        assert MembersOn(ms, id) == s;
        forall i, j | 0 <= i < j < |s| ensures s[i] != s[j] {
          if i == 0 {
            assert s[j] in tail;
          } else {
            assert s[i] == tail[i - 1] && s[j] == tail[j - 1];
          }
        }
      } else {
        assert MembersOn(ms, id) == tail;
      }
    }
  }

  /**
   In a group of distinct members, every instance's `member_ids` is distinct too, so the
   round-robin deal over it shares its block fairly (`DealCount`, `DealFair`).
   */
  lemma InstanceMembersDistinct(members: seq<string>, metadata: map<string, string>, config: Config, id: string)
    requires ValidConfig(config) && Distinct(members) && HostsOf(members, metadata, config).Success?
    ensures Distinct(MembersOf(HostsOf(members, metadata, config).value, id))
  {
    var ms := Resolve(members, metadata, config);
    ResolveFacts(members, metadata, config);
    HostMembers(ms, id);
    MembersOnDistinct(ms, id);
  }

  /** A member whose metadata can be read and whose capacity is above zero. */
  predicate HasCapacity(m: string, metadata: map<string, string>, config: Config)
  {
    var p := MemberProfile(m, metadata, config);
    p.Success? && Value(p.value.capacity) > 0.0
  }

  lemma {:induction false} TotalOfPositive(ms: seq<Member>)
    requires AllResolved(ms) && NonNegative(ms)
    ensures TotalOf(ms) >= 0.0
    ensures TotalOf(ms) > 0.0 <==> exists i | 0 <= i < |ms| :: Value(ms[i].profile.value.capacity) > 0.0
  {
    if ms != [] {
      TailFacts(ms);
      TotalOfPositive(ms[1..]);
      if TotalOf(ms[1..]) > 0.0 {
        var i :| 0 <= i < |ms[1..]| && Value(ms[1..][i].profile.value.capacity) > 0.0;
        assert ms[1..][i] == ms[i + 1];
      }
      if exists i | 0 <= i < |ms| :: Value(ms[i].profile.value.capacity) > 0.0 {
        var i :| 0 <= i < |ms| && Value(ms[i].profile.value.capacity) > 0.0;
        if i > 0 {
          assert ms[1..][i - 1] == ms[i];
        }
      }
    }
  }

  /** The summed capacity is above zero exactly when some member's is. */
  lemma PositiveTotal(members: seq<string>, metadata: map<string, string>, config: Config)
    requires ValidConfig(config) && Resolvable(members, metadata)
    ensures AllResolved(Resolve(members, metadata, config))
    ensures TotalOf(Resolve(members, metadata, config)) > 0.0
        <==> exists i | 0 <= i < |members| :: HasCapacity(members[i], metadata, config)
  {
    var ms := Resolve(members, metadata, config);
    ResolveFacts(members, metadata, config);
    TotalOfPositive(ms);
    if exists i | 0 <= i < |members| :: HasCapacity(members[i], metadata, config) {
      var i :| 0 <= i < |members| && HasCapacity(members[i], metadata, config);
      assert Value(ms[i].profile.value.capacity) > 0.0;
    }
    if TotalOf(ms) > 0.0 {
      var i :| 0 <= i < |ms| && Value(ms[i].profile.value.capacity) > 0.0;
      assert HasCapacity(members[i], metadata, config);
    }
  }

  /**
   `assign` returns an assignment exactly when every member's metadata can be read and some
   member has a capacity above zero; otherwise it raises.
   */
  lemma AssignmentSucceeds(members: seq<string>, metadata: map<string, string>, config: Config,
                           tps: seq<TopicPartition>)
    requires ValidConfig(config)
    ensures Assignment(members, metadata, config, tps).Success?
        <==> Resolvable(members, metadata) && exists i | 0 <= i < |members| :: HasCapacity(members[i], metadata, config)
  {
    ResolveFacts(members, metadata, config);
    if Resolvable(members, metadata) {
      HostTotal(Resolve(members, metadata, config));
      PositiveTotal(members, metadata, config);
    }
  }

  /** The error a member's metadata raises: no metadata at all, or fewer than two fields. */
  function MetadataError(m: string, metadata: map<string, string>): AssignError
  {
    if m !in metadata then MissingMetadata(m) else MissingInstanceType(m)
  }

  /**
   The first loop stops at the first member whose metadata cannot be read: the error names
   that member, and every member before it was readable.
   */
  lemma AssignmentFailsAtFirst(members: seq<string>, metadata: map<string, string>, config: Config,
                               tps: seq<TopicPartition>)
    requires ValidConfig(config) && !Resolvable(members, metadata)
    ensures exists i | 0 <= i < |members| ::
              && Resolvable(members[..i], metadata)
              && !Resolvable([members[i]], metadata)
              && Assignment(members, metadata, config, tps) == Failure(MetadataError(members[i], metadata))
  {
    var ms := Resolve(members, metadata, config);
    ResolveFacts(members, metadata, config);
    EmptyWellFormed();
    TabulateFailsAtFirst(EmptyTable, ms);
    var i :| 0 <= i < |ms| && ms[i].profile == Failure(Tabulate(EmptyTable, ms).error) && AllResolved(ms[..i]);
    var prefix := members[..i];
    assert Resolve(prefix, metadata, config) == ms[..i];
    ResolveFacts(prefix, metadata, config);
    assert !Resolvable([members[i]], metadata);
  }

  /** With no members the total capacity is the Integer 0 and line 67 divides by it. */
  lemma NoMembers(metadata: map<string, string>, config: Config, tps: seq<TopicPartition>)
    requires ValidConfig(config)
    ensures Assignment([], metadata, config, tps) == Failure(ZeroDivisionError)
  {
    assert Resolve([], metadata, config) == [];
  }

  /**
   Keying `weights` by family first instead of by zone first changes no member's assignment,
   as long as no zone is named like a family.
   */
  lemma AssignmentOrientationInvariant(members: seq<string>, metadata: map<string, string>, config: Config,
                                       tps: seq<TopicPartition>)
    requires ValidConfig(config) && SeparateKeys(config.weights)
    ensures ValidConfig(config.(weights := Transpose(config.weights)))
    ensures Assignment(members, metadata, config, tps)
         == Assignment(members, metadata, config.(weights := Transpose(config.weights)), tps)
  {
    var config' := config.(weights := Transpose(config.weights));
    TransposeNonNegative(config.instanceFamilyWeights, config.availabilityZoneWeights, config.weights);
    forall m | m in metadata && UserData.Decode(metadata[m]).Some?
      ensures MemberProfile(m, metadata, config) == MemberProfile(m, metadata, config')
    {
      var info := UserData.Decode(metadata[m]).value;
      CapacityOrientationInvariant(info.instanceType, info.availabilityZone,
                                   config.instanceFamilyWeights, config.availabilityZoneWeights, config.weights);
    }
    assert Resolve(members, metadata, config) == Resolve(members, metadata, config');
  }

  /** What a member receives is as many partitions as it owns positions. */
  lemma AssignmentCounts(members: seq<string>, metadata: map<string, string>, config: Config,
                         tps: seq<TopicPartition>, t: HostTable, m: string)
    requires ValidConfig(config) && HostsOf(members, metadata, config) == Success(t)
    requires Value(t.total) != 0.0 && m in members
    ensures Walkable(t.order, t) && Walkable(SortByCapacityDesc(t.order, t.capacity), t) && t.order != []
    ensures Assignment(members, metadata, config, tps).Success?
    ensures |Assignment(members, metadata, config, tps).value[m]|
         == multiset(Owners(SortByCapacityDesc(t.order, t.capacity), t, Div(Int(|tps|), t.total), |tps|))[m]
  {
    AssignmentOnHosts(members, metadata, config, tps, t);
    ReceivedCount(tps, Owners(SortByCapacityDesc(t.order, t.capacity), t, Div(Int(|tps|), t.total), |tps|), m);
  }

  /** Every weight in the three tables is an Integer. */
  predicate IntegerWeights(config: Config)
  {
    && (forall k | k in config.instanceFamilyWeights :: config.instanceFamilyWeights[k].Int?)
    && (forall k | k in config.availabilityZoneWeights :: config.availabilityZoneWeights[k].Int?)
    && (forall k, k' | k in config.weights && k' in config.weights[k] :: config.weights[k][k'].Int?)
  }

  /** An all-Integer table: the total and every instance's capacity are Integers. */
  predicate IntegerTable(t: HostTable)
  {
    t.total.Int? && forall id | id in t.capacity :: t.capacity[id].Int?
  }

  lemma IntegerProfile(m: string, metadata: map<string, string>, config: Config)
    requires IntegerWeights(config) && MemberProfile(m, metadata, config).Success?
    ensures MemberProfile(m, metadata, config).value.capacity.Int?
  {
  }

  lemma {:induction false} TabulateInteger(t: HostTable, ms: seq<Member>)
    requires WellFormed(t) && NonNegative(ms) && AllResolved(ms) && IntegerTable(t)
    requires forall i | 0 <= i < |ms| :: ms[i].profile.value.capacity.Int?
    ensures IntegerTable(Tabulate(t, ms).value)
    decreases |ms|
  {
    if ms != [] {
      TabulateStep(t, ms);
      var r := Record(t, ms[0].id, ms[0].profile.value);
      assert forall i | 0 <= i < |ms[1..]| :: ms[1..][i] == ms[i + 1];
      TabulateInteger(r, ms[1..]);
    }
  }

  /** Integer weights give an all-Integer host table. */
  lemma HostsInteger(members: seq<string>, metadata: map<string, string>, config: Config, t: HostTable)
    requires ValidConfig(config) && IntegerWeights(config) && HostsOf(members, metadata, config) == Success(t)
    ensures IntegerTable(t)
  {
    var ms := Resolve(members, metadata, config);
    ResolveFacts(members, metadata, config);
    forall i | 0 <= i < |ms| ensures ms[i].profile.value.capacity.Int? {
      IntegerProfile(members[i], metadata, config);
    }
    EmptyWellFormed();
    TabulateInteger(EmptyTable, ms);
  }

  /** With an Integer `partition_count_per_capacity` of 0 no instance takes a block. */
  lemma {:induction false} PrimaryEmpty(order: seq<string>, t: HostTable, per: Num, j: nat)
    requires Walkable(order, t) && per == Int(0) && IntegerTable(t) && j <= |order|
    ensures Primary(order, t, per, j) == []
  {
    if j > 0 {
      PrimaryEmpty(order, t, per, j - 1);
      assert BlockSize(t, order[j - 1], per) == 0;
    }
  }

  /**
   When every weight is an Integer, line 67 divides Integers and floors: with fewer partitions
   than the total capacity every block rounds to 0 and the whole list is dealt round-robin over
   all members in first-seen order, whatever their capacities.
   */
  lemma IntegerWeightsIgnoreCapacity(members: seq<string>, metadata: map<string, string>, config: Config,
                                     tps: seq<TopicPartition>, t: HostTable)
    requires ValidConfig(config) && IntegerWeights(config) && HostsOf(members, metadata, config) == Success(t)
    requires Value(t.total) > |tps| as real
    ensures Walkable(t.order, t)
    ensures Assignment(members, metadata, config, tps) == Success(Distribute(members, tps, Deal(Flatten(t.order, t), |tps|)))
  {
    HostsInteger(members, metadata, config, t);
    AssignmentOnHosts(members, metadata, config, tps, t);
    var per := Div(Int(|tps|), t.total);
    FloorDivSmall(|tps|, t.total.i);
    var order := SortByCapacityDesc(t.order, t.capacity);
    PrimaryEmpty(order, t, per, |order|);
    assert Owners(order, t, per, |tps|) == Deal(Flatten(t.order, t), |tps|);
  }
}
