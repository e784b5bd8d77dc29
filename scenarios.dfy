/**
 Two groups from the strategy's own examples, worked through the model: the weights by
 instance family and by zone, the metadata each member sends, and the assignment that comes
 out.
 */
module Scenarios {
  import opened Wrappers
  import opened Numeric
  import opened Capacity
  import opened Hosts
  import opened Distribution
  import opened Strategy
  import opened Properties
  import UserData

  const FamilyWeights: WeightTable := map["r4" := Int(1), "r5" := Float(1.08), "m5" := Float(1.13), "c5" := Float(1.25)]
  const ZoneWeights: WeightTable := map["ap-northeast-1a" := Int(1), "ap-northeast-1c" := Float(0.9)]
  const Weighted: Config := Config(FamilyWeights, ZoneWeights, map[])

  lemma WeightedValid()
    ensures ValidConfig(Weighted)
  {
    assert forall k | k in FamilyWeights :: k in {"r4", "r5", "m5", "c5"};
    assert forall k | k in ZoneWeights :: k in {"ap-northeast-1a", "ap-northeast-1c"};
  }

  /** The metadata string `"instance_id,instance_type,az"`. */
  function Metadata(instanceId: string, instanceType: string, az: string): string
  {
    instanceId + "," + instanceType + "," + az
  }

  /** A member of instance type `family.size` in zone `az` gets the table's capacity for both. */
  lemma ReadMember(m: string, metadata: map<string, string>, config: Config,
                   instanceId: string, family: string, size: string, az: string)
    requires m in metadata && metadata[m] == Metadata(instanceId, family + "." + size, az)
    requires ',' !in instanceId && ',' !in family && ',' !in size && '.' !in family && ',' !in az
    requires family != "" && az != "" && config.weights == map[]
    ensures MemberProfile(m, metadata, config)
         == Success(Profile(instanceId, Mul(Fetch(config.instanceFamilyWeights, Some(family), Int(1)),
                                            Fetch(config.availabilityZoneWeights, Some(az), Int(1)))))
  {
    var instanceType := family + "." + size;
    assert forall c | c in instanceType :: c in family || c == '.' || c in size;
    UserData.DecodeFields(instanceId, instanceType, az);
    UserData.FamilyOfInstanceType(family, size);
  }

  /** A member on an instance not seen before opens a new entry at the end of the order. */
  lemma RecordNew(t: HostTable, m: string, p: Profile)
    requires WellFormed(t) && Value(p.capacity) >= 0.0 && p.instanceId !in t.memberIds
    ensures Record(t, m, p) == HostTable(t.order + [p.instanceId], t.memberIds[p.instanceId := [m]],
                                         t.capacity[p.instanceId := Add(Int(0), p.capacity)], Add(t.total, p.capacity))
  {
    assert MembersOf(t, p.instanceId) + [m] == [m];
  }

  /** The first loop, at a member on an instance not seen before: `u` is the table after it. */
  lemma TabulateFresh(t: HostTable, m: string, p: Profile, rest: seq<Member>, u: HostTable)
    requires WellFormed(t) && Value(p.capacity) >= 0.0 && p.instanceId !in t.memberIds && NonNegative(rest)
    requires u.order == t.order + [p.instanceId] && u.memberIds == t.memberIds[p.instanceId := [m]]
    requires u.capacity == t.capacity[p.instanceId := Add(Int(0), p.capacity)] && u.total == Add(t.total, p.capacity)
    ensures NonNegative([Member(m, Success(p))] + rest) && WellFormed(u)
    ensures Tabulate(t, [Member(m, Success(p))] + rest) == Tabulate(u, rest)
  {
    var ms := [Member(m, Success(p))] + rest;
    assert ms[0] == Member(m, Success(p)) && ms[1..] == rest;
    assert forall i | 1 <= i < |ms| :: ms[i] == rest[i - 1];
    RecordNew(t, m, p);
    RecordWellFormed(t, m, p);
  }

  /** The first loop over two members on two different instances. */
  lemma TabulateTwo(m1: string, m2: string, p1: Profile, p2: Profile)
    requires p1.instanceId != p2.instanceId && Value(p1.capacity) >= 0.0 && Value(p2.capacity) >= 0.0
    ensures NonNegative([Member(m1, Success(p1)), Member(m2, Success(p2))])
    ensures Tabulate(EmptyTable, [Member(m1, Success(p1)), Member(m2, Success(p2))])
         == Success(HostTable([p1.instanceId, p2.instanceId],
                              map[p1.instanceId := [m1], p2.instanceId := [m2]],
                              map[p1.instanceId := Add(Int(0), p1.capacity), p2.instanceId := Add(Int(0), p2.capacity)],
                              Add(Add(Int(0), p1.capacity), p2.capacity)))
  {
    var ms := [Member(m1, Success(p1)), Member(m2, Success(p2))];
    EmptyWellFormed();
    RecordNew(EmptyTable, m1, p1);
    var t1 := Record(EmptyTable, m1, p1);
    RecordNew(t1, m2, p2);
    assert [] + [p1.instanceId] + [p2.instanceId] == [p1.instanceId, p2.instanceId];
    TabulateStep(EmptyTable, ms);
    TabulateStep(t1, ms[1..]);
    assert ms[1..][1..] == [];
  }

  /**
   Two single-member instances of the examples, in zone a: `m1` on a c5 instance `i0`, `m2`
   on an m5 instance `i1`. Their capacities are 1.25 and 1.13 and the total 2.38.
   */
  lemma PairHosts(m1: string, m2: string, i0: string, i1: string, metadata: map<string, string>)
    requires m1 != m2 && i0 != i1 && ',' !in i0 && ',' !in i1
    requires m1 in metadata && metadata[m1] == Metadata(i0, "c5.xlarge", "ap-northeast-1a")
    requires m2 in metadata && metadata[m2] == Metadata(i1, "m5.xlarge", "ap-northeast-1a")
    ensures HostsOf([m1, m2], metadata, Weighted)
         == Success(HostTable([i0, i1], map[i0 := [m1], i1 := [m2]], map[i0 := Float(1.25), i1 := Float(1.13)], Float(2.38)))
  {
    var c5, m5 := Profile(i0, Float(1.25)), Profile(i1, Float(1.13));
    PairProfiles(m1, m2, i0, i1, metadata);
    WeightedValid();
    TabulateTwo(m1, m2, c5, m5);
  }

  /** A member of an `xlarge` instance of a weighted family in zone a. */
  lemma ZoneAProfile(m: string, metadata: map<string, string>, i: string, family: string)
    requires ',' !in i && ',' !in family && '.' !in family && family in FamilyWeights
    requires m in metadata && metadata[m] == Metadata(i, family + ".xlarge", "ap-northeast-1a")
    ensures MemberProfile(m, metadata, Weighted) == Success(Profile(i, Mul(FamilyWeights[family], Int(1))))
  {
    assert family + ".xlarge" == family + "." + "xlarge";
    ReadMember(m, metadata, Weighted, i, family, "xlarge", "ap-northeast-1a");
  }

  lemma ResolvePair(m1: string, m2: string, metadata: map<string, string>, config: Config)
    ensures Resolve([m1, m2], metadata, config)
         == [Member(m1, MemberProfile(m1, metadata, config)), Member(m2, MemberProfile(m2, metadata, config))]
  {
  }

  lemma PairProfiles(m1: string, m2: string, i0: string, i1: string, metadata: map<string, string>)
    requires ',' !in i0 && ',' !in i1
    requires m1 in metadata && metadata[m1] == Metadata(i0, "c5.xlarge", "ap-northeast-1a")
    requires m2 in metadata && metadata[m2] == Metadata(i1, "m5.xlarge", "ap-northeast-1a")
    ensures Resolve([m1, m2], metadata, Weighted)
         == [Member(m1, Success(Profile(i0, Float(1.25)))), Member(m2, Success(Profile(i1, Float(1.13))))]
  {
    assert "c5.xlarge" == "c5" + ".xlarge";
    assert "m5.xlarge" == "m5" + ".xlarge";
    ZoneAProfile(m1, metadata, i0, "c5");
    ZoneAProfile(m2, metadata, i1, "m5");
    assert Mul(FamilyWeights["c5"], Int(1)) == Float(1.25);
    assert Mul(FamilyWeights["m5"], Int(1)) == Float(1.13);
    ResolvePair(m1, m2, metadata, Weighted);
  }

  /** The host table of the c5/m5 pair. */
  function PairTable(m1: string, m2: string, i0: string, i1: string): HostTable
  {
    HostTable([i0, i1], map[i0 := [m1], i1 := [m2]], map[i0 := Float(1.25), i1 := Float(1.13)], Float(2.38))
  }

  /** The c5 instance sorts before the m5 instance. */
  lemma PairSorted(m1: string, m2: string, i0: string, i1: string)
    requires i0 != i1
    ensures SortByCapacityDesc([i0, i1], PairTable(m1, m2, i0, i1).capacity) == [i0, i1]
  {
    var capacity := PairTable(m1, m2, i0, i1).capacity;
    assert [i0, i1][..1] == [i0];
    assert [i0][..0] == [];
    assert SortByCapacityDesc([i0], capacity) == [i0];
  }

  /**
   With one partition, `partition_count_per_capacity` is 1 / 2.38: the c5 instance's block
   rounds to 1 and the m5 instance's to 0, so the only position goes to `m1`.
   */
  lemma PairOwners(m1: string, m2: string, i0: string, i1: string)
    requires i0 != i1
    ensures Walkable([i0, i1], PairTable(m1, m2, i0, i1))
    ensures Owners([i0, i1], PairTable(m1, m2, i0, i1), Div(Int(1), Float(2.38)), 1) == [m1]
  {
    var t := PairTable(m1, m2, i0, i1);
    var per := Div(Int(1), Float(2.38));
    assert Walkable([i0, i1], t);
    assert BlockSize(t, i0, per) == 1;
    assert BlockSize(t, i1, per) == 0;
    assert [i0, i1][..1] == [i0];
    assert Primary([i0, i1], t, per, 1) == [m1];
    assert Primary([i0, i1], t, per, 2) == [m1];
  }

  /** One partition, owned by `m1`. */
  lemma SoleOwner(m1: string, m2: string, topic: string)
    requires m1 != m2
    ensures Distribute([m1, m2], [(topic, 0)], [m1]) == map[m1 := [(topic, 0)], m2 := []]
  {
    var tps := [(topic, 0)];
    assert [m1][..0] == [];
    assert Received(tps, [m1], m1) == [(topic, 0)];
    assert Received(tps, [m1], m2) == [];
    DistributeExtensional(map[m1 := [(topic, 0)], m2 := []], [m1, m2], tps, [m1]);
  }

  /**
   The example with one partition: the c5 member, of the higher capacity, gets it and the m5
   member gets nothing.
   */
  lemma OnePartition(m1: string, m2: string, i0: string, i1: string, metadata: map<string, string>, topic: string)
    requires m1 != m2 && i0 != i1 && ',' !in i0 && ',' !in i1
    requires m1 in metadata && metadata[m1] == Metadata(i0, "c5.xlarge", "ap-northeast-1a")
    requires m2 in metadata && metadata[m2] == Metadata(i1, "m5.xlarge", "ap-northeast-1a")
    ensures Assignment([m1, m2], metadata, Weighted, [(topic, 0)]) == Success(map[m1 := [(topic, 0)], m2 := []])
  {
    var t := PairTable(m1, m2, i0, i1);
    var tps := [(topic, 0)];
    PairHosts(m1, m2, i0, i1, metadata);
    WeightedValid();
    AssignmentOnHosts([m1, m2], metadata, Weighted, tps, t);
    PairSorted(m1, m2, i0, i1);
    PairOwners(m1, m2, i0, i1);
    assert Div(Int(|tps|), t.total) == Div(Int(1), Float(2.38));
    SoleOwner(m1, m2, topic);
  }

  lemma ResolveTriple(m1: string, m2: string, m3: string, metadata: map<string, string>, config: Config)
    ensures Resolve([m1, m2, m3], metadata, config)
         == [Member(m1, MemberProfile(m1, metadata, config)), Member(m2, MemberProfile(m2, metadata, config)),
             Member(m3, MemberProfile(m3, metadata, config))]
  {
  }

  /** Three members on r4 instances in zone a: each of capacity 1, an Integer. */
  lemma TripleProfiles(m1: string, m2: string, m3: string, i0: string, i1: string, i2: string,
                       metadata: map<string, string>)
    requires ',' !in i0 && ',' !in i1 && ',' !in i2
    requires m1 in metadata && metadata[m1] == Metadata(i0, "r4.xlarge", "ap-northeast-1a")
    requires m2 in metadata && metadata[m2] == Metadata(i1, "r4.xlarge", "ap-northeast-1a")
    requires m3 in metadata && metadata[m3] == Metadata(i2, "r4.xlarge", "ap-northeast-1a")
    ensures Resolve([m1, m2, m3], metadata, Weighted)
         == [Member(m1, Success(Profile(i0, Int(1)))), Member(m2, Success(Profile(i1, Int(1)))),
             Member(m3, Success(Profile(i2, Int(1))))]
  {
    assert "r4.xlarge" == "r4" + ".xlarge";
    ZoneAProfile(m1, metadata, i0, "r4");
    ZoneAProfile(m2, metadata, i1, "r4");
    ZoneAProfile(m3, metadata, i2, "r4");
    assert Mul(FamilyWeights["r4"], Int(1)) == Int(1);
    ResolveTriple(m1, m2, m3, metadata, Weighted);
  }

  /** The host table of the three r4 members. */
  function TripleTable(m1: string, m2: string, m3: string, i0: string, i1: string, i2: string): HostTable
  {
    HostTable([i0, i1, i2], map[i0 := [m1], i1 := [m2], i2 := [m3]], map[i0 := Int(1), i1 := Int(1), i2 := Int(1)], Int(3))
  }

  /** The tables after the first one and the first two of the three r4 members. */
  function FirstOfTriple(m1: string, i0: string): HostTable
  {
    HostTable([i0], map[i0 := [m1]], map[i0 := Int(1)], Int(1))
  }

  function FirstTwoOfTriple(m1: string, m2: string, i0: string, i1: string): HostTable
  {
    HostTable([i0, i1], map[i0 := [m1], i1 := [m2]], map[i0 := Int(1), i1 := Int(1)], Int(2))
  }

  lemma TripleStep1(x1: Member, x2: Member, x3: Member, m1: string, i0: string)
    requires x1 == Member(m1, Success(Profile(i0, Int(1)))) && NonNegative([x1, x2, x3]) && NonNegative([x2, x3])
    requires WellFormed(EmptyTable)
    ensures WellFormed(FirstOfTriple(m1, i0))
    ensures Tabulate(EmptyTable, [x1, x2, x3]) == Tabulate(FirstOfTriple(m1, i0), [x2, x3])
  {
    assert [x1] + [x2, x3] == [x1, x2, x3];
    TabulateFresh(EmptyTable, m1, Profile(i0, Int(1)), [x2, x3], FirstOfTriple(m1, i0));
  }

  lemma TripleStep2(x2: Member, x3: Member, m1: string, m2: string, i0: string, i1: string)
    requires x2 == Member(m2, Success(Profile(i1, Int(1)))) && NonNegative([x2, x3]) && NonNegative([x3])
    requires i0 != i1 && WellFormed(FirstOfTriple(m1, i0))
    ensures WellFormed(FirstTwoOfTriple(m1, m2, i0, i1))
    ensures Tabulate(FirstOfTriple(m1, i0), [x2, x3]) == Tabulate(FirstTwoOfTriple(m1, m2, i0, i1), [x3])
  {
    assert [x2] + [x3] == [x2, x3];
    TabulateFresh(FirstOfTriple(m1, i0), m2, Profile(i1, Int(1)), [x3], FirstTwoOfTriple(m1, m2, i0, i1));
  }

  lemma TripleStep3(m1: string, m2: string, m3: string, i0: string, i1: string, i2: string)
    requires i0 != i2 && i1 != i2 && WellFormed(FirstTwoOfTriple(m1, m2, i0, i1))
    ensures Tabulate(FirstTwoOfTriple(m1, m2, i0, i1), [Member(m3, Success(Profile(i2, Int(1))))])
         == Success(TripleTable(m1, m2, m3, i0, i1, i2))
  {
    var x3 := Member(m3, Success(Profile(i2, Int(1))));
    assert [x3] + [] == [x3];
    assert [i0, i1] + [i2] == [i0, i1, i2];
    TabulateFresh(FirstTwoOfTriple(m1, m2, i0, i1), m3, Profile(i2, Int(1)), [], TripleTable(m1, m2, m3, i0, i1, i2));
  }

  /** The first loop over three members on three different instances of capacity 1. */
  lemma TabulateThree(m1: string, m2: string, m3: string, i0: string, i1: string, i2: string)
    requires i0 != i1 && i1 != i2 && i0 != i2
    ensures var ms := [Member(m1, Success(Profile(i0, Int(1)))), Member(m2, Success(Profile(i1, Int(1)))),
                       Member(m3, Success(Profile(i2, Int(1))))];
            NonNegative(ms) && Tabulate(EmptyTable, ms) == Success(TripleTable(m1, m2, m3, i0, i1, i2))
  {
    var x1, x2, x3 := Member(m1, Success(Profile(i0, Int(1)))), Member(m2, Success(Profile(i1, Int(1)))),
                      Member(m3, Success(Profile(i2, Int(1))));
    assert NonNegative([x1, x2, x3]) && NonNegative([x2, x3]) && NonNegative([x3]);
    EmptyWellFormed();
    TripleStep1(x1, x2, x3, m1, i0);
    TripleStep2(x2, x3, m1, m2, i0, i1);
    TripleStep3(m1, m2, m3, i0, i1, i2);
  }

  lemma TripleHosts(m1: string, m2: string, m3: string, i0: string, i1: string, i2: string,
                    metadata: map<string, string>)
    requires i0 != i1 && i1 != i2 && i0 != i2 && ',' !in i0 && ',' !in i1 && ',' !in i2
    requires m1 in metadata && metadata[m1] == Metadata(i0, "r4.xlarge", "ap-northeast-1a")
    requires m2 in metadata && metadata[m2] == Metadata(i1, "r4.xlarge", "ap-northeast-1a")
    requires m3 in metadata && metadata[m3] == Metadata(i2, "r4.xlarge", "ap-northeast-1a")
    ensures HostsOf([m1, m2, m3], metadata, Weighted) == Success(TripleTable(m1, m2, m3, i0, i1, i2))
  {
    TripleProfiles(m1, m2, m3, i0, i1, i2, metadata);
    WeightedValid();
    TabulateThree(m1, m2, m3, i0, i1, i2);
  }

  /** Instances of equal capacity keep the order they were first seen in. */
  lemma TripleSorted(m1: string, m2: string, m3: string, i0: string, i1: string, i2: string)
    ensures SortByCapacityDesc([i0, i1, i2], TripleTable(m1, m2, m3, i0, i1, i2).capacity) == [i0, i1, i2]
  {
    SortTies([i0, i1, i2], TripleTable(m1, m2, m3, i0, i1, i2).capacity, 1.0);
  }

  /** Three positions dealt over one member all go to it. */
  lemma DealThree(m: string)
    ensures Deal([m], 3) == [m, m, m]
  {
    assert Deal([m], 1) == [m];
    assert Deal([m], 2) == [m] + [m];
  }

  lemma TripleWellFormed(m1: string, m2: string, m3: string, i0: string, i1: string, i2: string)
    requires i0 != i1 && i1 != i2 && i0 != i2
    ensures WellFormed(TripleTable(m1, m2, m3, i0, i1, i2))
  {
    EmptyWellFormed();
    TabulateThree(m1, m2, m3, i0, i1, i2);
  }

  /** Each instance's block of 3, one after the other. */
  lemma TriplePrimary(m1: string, m2: string, m3: string, i0: string, i1: string, i2: string)
    requires i0 != i1 && i1 != i2 && i0 != i2 && WellFormed(TripleTable(m1, m2, m3, i0, i1, i2))
    ensures Primary([i0, i1, i2], TripleTable(m1, m2, m3, i0, i1, i2), Int(3), 3)
         == [m1, m1, m1, m2, m2, m2, m3, m3, m3]
  {
    var t := TripleTable(m1, m2, m3, i0, i1, i2);
    var order := [i0, i1, i2];
    assert BlockSize(t, i0, Int(3)) == 3 && BlockSize(t, i1, Int(3)) == 3 && BlockSize(t, i2, Int(3)) == 3;
    DealThree(m1);
    DealThree(m2);
    DealThree(m3);
    assert Primary(order, t, Int(3), 1) == [m1, m1, m1];
    assert Primary(order, t, Int(3), 2) == [m1, m1, m1, m2, m2, m2];
  }

  /** `instance_id_to_member_ids.values.flatten` for the three r4 members. */
  lemma TripleFlatten(m1: string, m2: string, m3: string, i0: string, i1: string, i2: string)
    requires i0 != i1 && i1 != i2 && i0 != i2 && WellFormed(TripleTable(m1, m2, m3, i0, i1, i2))
    ensures Flatten([i0, i1, i2], TripleTable(m1, m2, m3, i0, i1, i2)) == [m1, m2, m3]
  {
    var t := TripleTable(m1, m2, m3, i0, i1, i2);
    assert [i0, i1, i2][..2] == [i0, i1];
    assert [i0, i1][..1] == [i0];
    assert [i0][..0] == [];
    assert Flatten([i0], t) == [m1];
    assert Flatten([i0, i1], t) == [m1, m2];
  }

  /**
   Ten partitions over a total capacity of 3: `partition_count_per_capacity` is 10 / 3 = 3,
   each instance takes a block of 3, and the one position left over goes to the first member
   of the flattened table.
   */
  lemma TripleOwners(m1: string, m2: string, m3: string, i0: string, i1: string, i2: string)
    requires i0 != i1 && i1 != i2 && i0 != i2
    ensures WellFormed(TripleTable(m1, m2, m3, i0, i1, i2))
    ensures Owners([i0, i1, i2], TripleTable(m1, m2, m3, i0, i1, i2), Int(3), 10)
         == [m1, m1, m1, m2, m2, m2, m3, m3, m3, m1]
  {
    TripleWellFormed(m1, m2, m3, i0, i1, i2);
    TriplePrimary(m1, m2, m3, i0, i1, i2);
    TripleFlatten(m1, m2, m3, i0, i1, i2);
    assert Deal([m1, m2, m3], 1) == [m1];
  }

  /** The owners of the ten positions: 4 for `m1`, 3 each for the others. */
  lemma TripleCounts(m1: string, m2: string, m3: string)
    requires m1 != m2 && m2 != m3 && m1 != m3
    ensures var owners := [m1, m1, m1, m2, m2, m2, m3, m3, m3, m1];
            multiset(owners)[m1] == 4 && multiset(owners)[m2] == 3 && multiset(owners)[m3] == 3
  {
  }

  /**
   The example of ten partitions over three r4 members: the sum of the rounded blocks is 9,
   and the member first in the flattened table takes the tenth, for counts of 4, 3 and 3.
   */
  lemma TenPartitions(m1: string, m2: string, m3: string, i0: string, i1: string, i2: string,
                      metadata: map<string, string>, tps: seq<TopicPartition>)
    requires m1 != m2 && m2 != m3 && m1 != m3 && |tps| == 10
    requires i0 != i1 && i1 != i2 && i0 != i2 && ',' !in i0 && ',' !in i1 && ',' !in i2
    requires m1 in metadata && metadata[m1] == Metadata(i0, "r4.xlarge", "ap-northeast-1a")
    requires m2 in metadata && metadata[m2] == Metadata(i1, "r4.xlarge", "ap-northeast-1a")
    requires m3 in metadata && metadata[m3] == Metadata(i2, "r4.xlarge", "ap-northeast-1a")
    ensures Assignment([m1, m2, m3], metadata, Weighted, tps).Success?
    ensures var ga := Assignment([m1, m2, m3], metadata, Weighted, tps).value;
            m1 in ga && m2 in ga && m3 in ga && |ga[m1]| == 4 && |ga[m2]| == 3 && |ga[m3]| == 3
  {
    var members := [m1, m2, m3];
    var t := TripleTable(m1, m2, m3, i0, i1, i2);
    TripleHosts(m1, m2, m3, i0, i1, i2, metadata);
    WeightedValid();
    TripleSorted(m1, m2, m3, i0, i1, i2);
    TripleOwners(m1, m2, m3, i0, i1, i2);
    assert Div(Int(|tps|), t.total) == Int(3);
    TripleCounts(m1, m2, m3);
    AssignmentCounts(members, metadata, Weighted, tps, t, m1);
    AssignmentCounts(members, metadata, Weighted, tps, t, m2);
    AssignmentCounts(members, metadata, Weighted, tps, t, m3);
  }

  /** The metadata of the one-partition example, with the ids it is written with. */
  const PairMetadata: map<string, string> :=
    map["0000-c5-a-0000" := Metadata("i-00000000000000000", "c5.xlarge", "ap-northeast-1a"),
        "0001-m5-a-0000" := Metadata("i-00000000000000001", "m5.xlarge", "ap-northeast-1a")]

  /** The one-partition example: all of it goes to the c5 member. */
  lemma OnePartitionExample()
    ensures Assignment(["0000-c5-a-0000", "0001-m5-a-0000"], PairMetadata, Weighted, [("topic", 0)])
         == Success(map["0000-c5-a-0000" := [("topic", 0)], "0001-m5-a-0000" := []])
  {
    OnePartition("0000-c5-a-0000", "0001-m5-a-0000", "i-00000000000000000", "i-00000000000000001",
                 PairMetadata, "topic");
  }

  /** The metadata of the ten-partition example, with the ids it is written with. */
  const TripleMetadata: map<string, string> :=
    map["0000-r4-a-0000" := Metadata("i-00000000000000000", "r4.xlarge", "ap-northeast-1a"),
        "0000-r4-a-0001" := Metadata("i-00000000000000001", "r4.xlarge", "ap-northeast-1a"),
        "0000-r4-a-0002" := Metadata("i-00000000000000002", "r4.xlarge", "ap-northeast-1a")]

  /** The ten-partition example: partitions 0 to 9 split 4, 3 and 3. */
  lemma TenPartitionsExample()
    ensures var r := Assignment(["0000-r4-a-0000", "0000-r4-a-0001", "0000-r4-a-0002"], TripleMetadata, Weighted,
                                seq(10, i => ("topic", i)));
            && r.Success?
            && "0000-r4-a-0000" in r.value && |r.value["0000-r4-a-0000"]| == 4
            && "0000-r4-a-0001" in r.value && |r.value["0000-r4-a-0001"]| == 3
            && "0000-r4-a-0002" in r.value && |r.value["0000-r4-a-0002"]| == 3
  {
    TenPartitions("0000-r4-a-0000", "0000-r4-a-0001", "0000-r4-a-0002",
                  "i-00000000000000000", "i-00000000000000001", "i-00000000000000002",
                  TripleMetadata, seq(10, i => ("topic", i)));
  }
}
