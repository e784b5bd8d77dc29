/**
 The capacity aggregator: the first loop of `assign` resolves every member's metadata and
 capacity and accumulates, per instance id, the member ids and the summed capacity, plus the
 total over all members. Also the instance order of the primary pass (`sort_by { -capacity }`).
 */
module Hosts {
  import opened Wrappers
  import opened Numeric
  import opened Capacity
  import UserData

  /** What makes `assign` raise before it returns an assignment. */
  datatype AssignError =
    | MissingMetadata(memberId: string)      // `nil.split`: the member has no metadata
    | MissingInstanceType(memberId: string)  // `nil.split` in calculate_capacity: fewer than two fields
    | ZeroDivisionError                      // Integer total capacity 0
    | FloatDomainError                       // Float total capacity 0.0: `NaN.round`

  /** One member's instance id and capacity. */
  datatype Profile = Profile(instanceId: string, capacity: Num)

  /** Every member has metadata with at least an instance id and an instance type. */
  predicate Resolvable(members: seq<string>, metadata: map<string, string>)
  {
    forall m | m in members :: m in metadata && UserData.Decode(metadata[m]).Some?
  }

  /** Lines 51 and 53 for one member: split its metadata and compute its capacity. */
  function MemberProfile(memberId: string, metadata: map<string, string>, config: Config): (r: Result<Profile, AssignError>)
    ensures r.Success? <==> Resolvable([memberId], metadata)
    ensures r.Failure? && memberId !in metadata ==> r.error == MissingMetadata(memberId)
    ensures r.Failure? && memberId in metadata ==> r.error == MissingInstanceType(memberId)
    ensures r.Success? && ValidConfig(config) ==> Value(r.value.capacity) >= 0.0
  {
    if memberId !in metadata then Failure(MissingMetadata(memberId))
    else
      match UserData.Decode(metadata[memberId])
      case None => Failure(MissingInstanceType(memberId))
      case Some(info) =>
        Success(Profile(info.instanceId,
          CalculateCapacity(info.instanceType, info.availabilityZone,
                            config.instanceFamilyWeights, config.availabilityZoneWeights, config.weights)))
  }

  /**
   The three accumulators of the first loop: `instance_id_to_member_ids` (with its keys in
   insertion order, which Ruby hashes keep), `instance_id_to_capacity` and `total_capacity`.
   */
  datatype HostTable = HostTable(
    order: seq<string>,
    memberIds: map<string, seq<string>>,
    capacity: map<string, Num>,
    total: Num)

  const EmptyTable := HostTable([], map[], map[], Int(0))

  predicate WellFormed(t: HostTable)
  {
    && (forall id | id in t.order :: id in t.memberIds)
    && (forall id | id in t.memberIds :: id in t.order)
    && t.capacity.Keys == t.memberIds.Keys
    && (forall i, j | 0 <= i < j < |t.order| :: t.order[i] != t.order[j])
    && (forall id | id in t.memberIds :: |t.memberIds[id]| > 0)
    && (forall id | id in t.capacity :: Value(t.capacity[id]) >= 0.0)
    && Value(t.total) >= 0.0
    && (t.order == [] ==> t.total == Int(0))
  }

  /** The member ids of one instance so far (`Hash.new { [] }`). */
  function MembersOf(t: HostTable, id: string): seq<string>
  {
    if id in t.memberIds then t.memberIds[id] else []
  }

  /** The capacity of one instance so far (`Hash.new(0)`). */
  function CapacityOf(t: HostTable, id: string): Num
  {
    if id in t.capacity then t.capacity[id] else Int(0)
  }

  /** Lines 52, 54 and 55 for one member. */
  function Record(t: HostTable, memberId: string, p: Profile): (r: HostTable)
    requires WellFormed(t) && Value(p.capacity) >= 0.0
    ensures MembersOf(r, p.instanceId) == MembersOf(t, p.instanceId) + [memberId]
    ensures Value(CapacityOf(r, p.instanceId)) == Value(CapacityOf(t, p.instanceId)) + Value(p.capacity)
    ensures forall id | id != p.instanceId :: MembersOf(r, id) == MembersOf(t, id) && CapacityOf(r, id) == CapacityOf(t, id)
    ensures Value(r.total) == Value(t.total) + Value(p.capacity)
    ensures r.order == if p.instanceId in t.memberIds then t.order else t.order + [p.instanceId]
  {
    var id := p.instanceId;
    HostTable(
      if id in t.memberIds then t.order else t.order + [id],
      t.memberIds[id := MembersOf(t, id) + [memberId]],
      t.capacity[id := Add(CapacityOf(t, id), p.capacity)],
      Add(t.total, p.capacity))
  }

  /** Recording a member keeps the table well formed. */
  lemma RecordWellFormed(t: HostTable, memberId: string, p: Profile)
    requires WellFormed(t) && Value(p.capacity) >= 0.0
    ensures WellFormed(Record(t, memberId, p))
  {
    var r := Record(t, memberId, p);
    var id := p.instanceId;
    assert r.memberIds.Keys == t.memberIds.Keys + {id};
    assert r.capacity.Keys == t.capacity.Keys + {id};
    if id in t.memberIds {
      assert r.order == t.order;
    } else {
      assert id !in t.order;
      assert r.order == t.order + [id];
      assert forall i, j | 0 <= i < j < |r.order| :: r.order[i] != r.order[j] by {
        assert forall i | 0 <= i < |t.order| :: r.order[i] == t.order[i];
      }
    }
  }

  /** A member id with what resolving its metadata gave. */
  datatype Member = Member(id: string, profile: Result<Profile, AssignError>)

  /** Lines 51 and 53 for every member, in member order. */
  function Resolve(members: seq<string>, metadata: map<string, string>, config: Config): seq<Member>
  {
    seq(|members|, i requires 0 <= i < |members| => Member(members[i], MemberProfile(members[i], metadata, config)))
  }

  predicate AllResolved(ms: seq<Member>)
  {
    forall i | 0 <= i < |ms| :: ms[i].profile.Success?
  }

  predicate NonNegative(ms: seq<Member>)
  {
    forall i | 0 <= i < |ms| && ms[i].profile.Success? :: Value(ms[i].profile.value.capacity) >= 0.0
  }

  lemma ResolveFacts(members: seq<string>, metadata: map<string, string>, config: Config)
    requires ValidConfig(config)
    ensures NonNegative(Resolve(members, metadata, config))
    ensures AllResolved(Resolve(members, metadata, config)) <==> Resolvable(members, metadata)
  {
    var ms := Resolve(members, metadata, config);
    if Resolvable(members, metadata) {
      forall i | 0 <= i < |ms| ensures ms[i].profile.Success? {
        assert members[i] in members;
      }
    }
    if AllResolved(ms) {
      forall m | m in members ensures m in metadata && UserData.Decode(metadata[m]).Some? {
        var i :| 0 <= i < |members| && members[i] == m;
        assert ms[i].profile.Success?;
      }
    }
  }

  /** Dropping the first member keeps the facts about the others. */
  lemma TailFacts(ms: seq<Member>)
    requires ms != []
    ensures NonNegative(ms) ==> NonNegative(ms[1..])
    ensures AllResolved(ms) <==> ms[0].profile.Success? && AllResolved(ms[1..])
  {
    assert forall i | 0 <= i < |ms[1..]| :: ms[1..][i] == ms[i + 1];
    assert forall i | 1 <= i < |ms| :: ms[i] == ms[1..][i - 1];
  }

  /**
   The first loop of `assign` (lines 48-56) over the members still to visit, starting from
   the accumulators `t`: it fails at the first member whose metadata cannot be split.
   */
  function Tabulate(t: HostTable, ms: seq<Member>): (r: Result<HostTable, AssignError>)
    requires WellFormed(t) && NonNegative(ms)
    ensures r.Success? <==> AllResolved(ms)
    ensures r.Success? ==> WellFormed(r.value)
    decreases |ms|
  {
    if ms == [] then Success(t)
    else
      TailFacts(ms);
      match ms[0].profile
      case Failure(e) => Failure(e)
      case Success(p) =>
        RecordWellFormed(t, ms[0].id, p);
        Tabulate(Record(t, ms[0].id, p), ms[1..])
  }

  /** The error `assign` raises is the one of the first member that cannot be resolved. */
  lemma {:induction false} TabulateFailsAtFirst(t: HostTable, ms: seq<Member>)
    requires WellFormed(t) && NonNegative(ms) && !AllResolved(ms)
    ensures exists i | 0 <= i < |ms| :: ms[i].profile == Failure(Tabulate(t, ms).error) && AllResolved(ms[..i])
    decreases |ms|
  {
    TailFacts(ms);
    match ms[0].profile
    case Failure(e) =>
      assert ms[..0] == [];
      assert ms[0].profile == Failure(Tabulate(t, ms).error);
    case Success(p) =>
      var t' := Record(t, ms[0].id, p);
      RecordWellFormed(t, ms[0].id, p);
      TabulateFailsAtFirst(t', ms[1..]);
      var i :| 0 <= i < |ms[1..]| && ms[1..][i].profile == Failure(Tabulate(t', ms[1..]).error) && AllResolved(ms[1..][..i]);
      assert ms[..i + 1] == [ms[0]] + ms[1..][..i];
      TailFacts(ms[..i + 1]);
      assert ms[i + 1].profile == Failure(Tabulate(t, ms).error);
  }

  /** The host table of a whole member list. */
  function HostsOf(members: seq<string>, metadata: map<string, string>, config: Config): Result<HostTable, AssignError>
    requires ValidConfig(config)
  {
    ResolveFacts(members, metadata, config);
    Tabulate(EmptyTable, Resolve(members, metadata, config))
  }

  /** The capacity of every member, summed (what line 55 accumulates). */
  function TotalOf(ms: seq<Member>): real
    requires AllResolved(ms)
  {
    if ms == [] then 0.0
    else Value(ms[0].profile.value.capacity) + TotalOf(ms[1..])
  }

  /** The members whose first metadata field is `id`, in member order. */
  function MembersOn(ms: seq<Member>, id: string): seq<string>
    requires AllResolved(ms)
  {
    if ms == [] then []
    else (if ms[0].profile.value.instanceId == id then [ms[0].id] else []) + MembersOn(ms[1..], id)
  }

  /** The capacity of the members whose first metadata field is `id`, summed. */
  function CapacityOn(ms: seq<Member>, id: string): real
    requires AllResolved(ms)
  {
    if ms == [] then 0.0
    else
      var p := ms[0].profile.value;
      (if p.instanceId == id then Value(p.capacity) else 0.0) + CapacityOn(ms[1..], id)
  }

  /** `TabulateNext` at position `i` of the whole member list. */
  lemma TabulateAt(t: HostTable, ms: seq<Member>, i: nat)
    requires i < |ms| && WellFormed(t) && NonNegative(ms[i..])
    ensures NonNegative(ms[i + 1..])
    ensures ms[i].profile.Failure? ==> Tabulate(t, ms[i..]) == Failure(ms[i].profile.error)
    ensures ms[i].profile.Success? ==> && Value(ms[i].profile.value.capacity) >= 0.0
                                       && WellFormed(Record(t, ms[i].id, ms[i].profile.value))
                                       && Tabulate(t, ms[i..]) == Tabulate(Record(t, ms[i].id, ms[i].profile.value), ms[i + 1..])
  {
    assert ms[i..][0] == ms[i] && ms[i..][1..] == ms[i + 1..];
    TabulateNext(t, ms[i..]);
  }

  /** One step of the first loop, whatever the first member's metadata gave. */
  lemma TabulateNext(t: HostTable, ms: seq<Member>)
    requires WellFormed(t) && NonNegative(ms) && ms != []
    ensures NonNegative(ms[1..])
    ensures ms[0].profile.Failure? ==> Tabulate(t, ms) == Failure(ms[0].profile.error)
    ensures ms[0].profile.Success? ==> && Value(ms[0].profile.value.capacity) >= 0.0
                                       && WellFormed(Record(t, ms[0].id, ms[0].profile.value))
                                       && Tabulate(t, ms) == Tabulate(Record(t, ms[0].id, ms[0].profile.value), ms[1..])
  {
    TailFacts(ms);
    if ms[0].profile.Success? {
      RecordWellFormed(t, ms[0].id, ms[0].profile.value);
    }
  }

  /** One step of the first loop: Tabulate goes on from the first member's record. */
  lemma TabulateStep(t: HostTable, ms: seq<Member>)
    requires WellFormed(t) && NonNegative(ms) && AllResolved(ms) && ms != []
    ensures AllResolved(ms[1..]) && NonNegative(ms[1..])
    ensures Value(ms[0].profile.value.capacity) >= 0.0
    ensures WellFormed(Record(t, ms[0].id, ms[0].profile.value))
    ensures Tabulate(t, ms) == Tabulate(Record(t, ms[0].id, ms[0].profile.value), ms[1..])
  {
    TailFacts(ms);
    RecordWellFormed(t, ms[0].id, ms[0].profile.value);
  }

  lemma ConcatAssociative<T>(a: seq<T>, b: seq<T>, c: seq<T>)
    ensures (a + b) + c == a + (b + c)
  {
  }

  /** The first loop adds every member's capacity to the total. */
  lemma {:induction false} TabulateTotal(t: HostTable, ms: seq<Member>)
    requires WellFormed(t) && NonNegative(ms) && AllResolved(ms)
    ensures Value(Tabulate(t, ms).value.total) == Value(t.total) + TotalOf(ms)
    decreases |ms|
  {
    if ms != [] {
      TabulateStep(t, ms);
      TabulateTotal(Record(t, ms[0].id, ms[0].profile.value), ms[1..]);
    }
  }

  /** Recording one member only extends the list of that member's instance. */
  lemma RecordMembers(t: HostTable, memberId: string, p: Profile, id: string)
    requires WellFormed(t) && Value(p.capacity) >= 0.0
    ensures MembersOf(Record(t, memberId, p), id) == MembersOf(t, id) + (if p.instanceId == id then [memberId] else [])
  {
  }

  /** The first loop appends every member, in order, to the list of its instance. */
  lemma {:induction false} TabulateMembers(t: HostTable, ms: seq<Member>, id: string)
    requires WellFormed(t) && NonNegative(ms) && AllResolved(ms)
    ensures MembersOf(Tabulate(t, ms).value, id) == MembersOf(t, id) + MembersOn(ms, id)
    decreases |ms|
  {
    if ms != [] {
      TabulateStep(t, ms);
      var p := ms[0].profile.value;
      var t' := Record(t, ms[0].id, p);
      TabulateMembers(t', ms[1..], id);
      RecordMembers(t, ms[0].id, p, id);
      ConcatAssociative(MembersOf(t, id), if p.instanceId == id then [ms[0].id] else [], MembersOn(ms[1..], id));
    }
  }

  /** The first loop adds every member's capacity to the capacity of its instance. */
  lemma {:induction false} TabulateCapacity(t: HostTable, ms: seq<Member>, id: string)
    requires WellFormed(t) && NonNegative(ms) && AllResolved(ms)
    ensures Value(CapacityOf(Tabulate(t, ms).value, id)) == Value(CapacityOf(t, id)) + CapacityOn(ms, id)
    decreases |ms|
  {
    if ms != [] {
      TabulateStep(t, ms);
      var p := ms[0].profile.value;
      var t' := Record(t, ms[0].id, p);
      TabulateCapacity(t', ms[1..], id);
      var mine := if p.instanceId == id then Value(p.capacity) else 0.0;
      assert Value(CapacityOf(t', id)) == Value(CapacityOf(t, id)) + mine;
    }
  }

  /** Every member listed under an instance is one of the members visited. */
  lemma {:induction false} MembersOnAreMembers(ms: seq<Member>, id: string, m: string)
    requires AllResolved(ms) && m in MembersOn(ms, id)
    ensures exists i | 0 <= i < |ms| :: ms[i].id == m
    decreases |ms|
  {
    assert ms != [];
    if m != ms[0].id || ms[0].profile.value.instanceId != id {
      TailFacts(ms);
      MembersOnAreMembers(ms[1..], id, m);
      var i :| 0 <= i < |ms[1..]| && ms[1..][i].id == m;
      assert ms[i + 1].id == m;
    }
  }

  lemma EmptyWellFormed()
    ensures WellFormed(EmptyTable)
  {
  }

  /** The first loop over a whole group succeeds and sums every member's capacity. */
  lemma HostTotal(ms: seq<Member>)
    requires NonNegative(ms) && AllResolved(ms)
    ensures Tabulate(EmptyTable, ms).Success?
    ensures Value(Tabulate(EmptyTable, ms).value.total) == TotalOf(ms)
  {
    EmptyWellFormed();
    TabulateTotal(EmptyTable, ms);
  }

  /** Per instance, the table lists the members on it in join order. */
  lemma HostMembers(ms: seq<Member>, id: string)
    requires NonNegative(ms) && AllResolved(ms)
    ensures MembersOf(Tabulate(EmptyTable, ms).value, id) == MembersOn(ms, id)
  {
    EmptyWellFormed();
    TabulateMembers(EmptyTable, ms, id);
    assert MembersOf(EmptyTable, id) == [];
    assert [] + MembersOn(ms, id) == MembersOn(ms, id);
  }

  /** Per instance, the table holds the sum of its members' capacities. */
  lemma HostCapacity(ms: seq<Member>, id: string)
    requires NonNegative(ms) && AllResolved(ms)
    ensures Value(CapacityOf(Tabulate(EmptyTable, ms).value, id)) == CapacityOn(ms, id)
  {
    EmptyWellFormed();
    TabulateCapacity(EmptyTable, ms, id);
  }

  /** Every member id the table lists under an instance is the id of a visited member. */
  lemma HostMembersAreMembers(ms: seq<Member>, id: string, m: string)
    requires NonNegative(ms) && AllResolved(ms)
    requires id in Tabulate(EmptyTable, ms).value.memberIds && m in Tabulate(EmptyTable, ms).value.memberIds[id]
    ensures exists i | 0 <= i < |ms| :: ms[i].id == m
  {
    HostMembers(ms, id);
    MembersOnAreMembers(ms, id, m);
  }

  /** The position of the first member on instance `id`. */
  function FirstOn(ms: seq<Member>, id: string): (k: nat)
    requires AllResolved(ms) && MembersOn(ms, id) != []
    ensures k < |ms| && ms[k].profile.value.instanceId == id
    ensures forall j | 0 <= j < k :: ms[j].profile.value.instanceId != id
    decreases |ms|
  {
    TailFacts(ms);
    if ms[0].profile.value.instanceId == id then 0
    else
      var k := FirstOn(ms[1..], id);
      assert forall j | 1 <= j <= k :: ms[j] == ms[1..][j - 1];
      1 + k
  }

  /** A member is among those found on its own instance. */
  lemma {:induction false} MembersOnContains(ms: seq<Member>, i: nat)
    requires AllResolved(ms) && i < |ms|
    ensures ms[i].id in MembersOn(ms, ms[i].profile.value.instanceId)
    decreases i
  {
    if i > 0 {
      TailFacts(ms);
      assert ms[1..][i - 1] == ms[i];
      MembersOnContains(ms[1..], i - 1);
    }
  }

  /**
   The first loop appends to `order` the instances it has not seen yet, each when its first
   member comes.
   */
  lemma {:induction false} TabulateOrder(t: HostTable, ms: seq<Member>)
    requires WellFormed(t) && NonNegative(ms) && AllResolved(ms)
    ensures t.order <= Tabulate(t, ms).value.order
    ensures forall a | |t.order| <= a < |Tabulate(t, ms).value.order| :: MembersOn(ms, Tabulate(t, ms).value.order[a]) != []
    ensures forall a, b | |t.order| <= a < b < |Tabulate(t, ms).value.order| ::
              FirstOn(ms, Tabulate(t, ms).value.order[a]) < FirstOn(ms, Tabulate(t, ms).value.order[b])
    decreases |ms|
  {
    if ms != [] {
      var x := ms[0];
      var p := x.profile.value;
      var rest := ms[1..];
      TabulateStep(t, ms);
      var t' := Record(t, x.id, p);
      TabulateOrder(t', rest);
      var r := Tabulate(t, ms).value;
      assert r == Tabulate(t', rest).value;
      assert p.instanceId in t'.order;
      var at :| 0 <= at < |t'.order| && t'.order[at] == p.instanceId;
      assert r.order[at] == p.instanceId;
      forall a | |t'.order| <= a < |r.order|
        ensures r.order[a] != p.instanceId
      {
        assert a != at;
      }
      forall a | |t.order| <= a < |r.order|
        ensures MembersOn(ms, r.order[a]) != []
      {
        if a >= |t'.order| {
          assert MembersOn(ms, r.order[a]) == [] + MembersOn(rest, r.order[a]);
        } else {
          assert r.order[a] == p.instanceId;
        }
      }
      forall a, b | |t.order| <= a < b < |r.order|
        ensures FirstOn(ms, r.order[a]) < FirstOn(ms, r.order[b])
      {
        assert r.order[b] != p.instanceId by { assert b >= |t'.order| || b == at; assert b != at; }
        if a >= |t'.order| {
          assert r.order[a] != p.instanceId;
        } else {
          assert r.order[a] == p.instanceId;
        }
      }
    }
  }

  /**
   `instance_id_to_member_ids.keys` after the first loop: the instances of the members, each
   once, in the order in which their first members joined.
   */
  lemma InstanceOrder(ms: seq<Member>)
    requires NonNegative(ms) && AllResolved(ms)
    ensures forall id :: id in Tabulate(EmptyTable, ms).value.order <==> MembersOn(ms, id) != []
    ensures forall i, j | 0 <= i < j < |Tabulate(EmptyTable, ms).value.order| ::
              Tabulate(EmptyTable, ms).value.order[i] != Tabulate(EmptyTable, ms).value.order[j]
    ensures forall a, b | 0 <= a < b < |Tabulate(EmptyTable, ms).value.order| ::
              FirstOn(ms, Tabulate(EmptyTable, ms).value.order[a]) < FirstOn(ms, Tabulate(EmptyTable, ms).value.order[b])
  {
    EmptyWellFormed();
    TabulateOrder(EmptyTable, ms);
    var t := Tabulate(EmptyTable, ms).value;
    forall id ensures id in t.order <==> MembersOn(ms, id) != [] {
      HostMembers(ms, id);
    }
  }

  /** The instances, each capacity at least the next one's. */
  predicate NonIncreasing(ids: seq<string>, capacity: map<string, Num>)
    requires forall x | x in ids :: x in capacity
  {
    forall i | 0 < i < |ids| :: Value(capacity[ids[i - 1]]) >= Value(capacity[ids[i]])
  }

  /** Inserts `id` before the first instance of strictly lower capacity. */
  function InsertByCapacity(id: string, sorted: seq<string>, capacity: map<string, Num>): (r: seq<string>)
    requires id in capacity && forall x | x in sorted :: x in capacity
    ensures multiset(r) == multiset(sorted) + multiset{id}
    ensures forall x | x in r :: x == id || x in sorted
    ensures r[0] == id || (sorted != [] && r[0] == sorted[0])
  {
    if sorted == [] then [id]
    else if Value(capacity[id]) > Value(capacity[sorted[0]]) then [id] + sorted
    else
      assert sorted == [sorted[0]] + sorted[1..];
      [sorted[0]] + InsertByCapacity(id, sorted[1..], capacity)
  }

  /** Inserting into a sorted list keeps it sorted. */
  lemma {:induction false} InsertKeepsOrder(id: string, sorted: seq<string>, capacity: map<string, Num>)
    requires id in capacity && forall x | x in sorted :: x in capacity
    requires NonIncreasing(sorted, capacity)
    ensures NonIncreasing(InsertByCapacity(id, sorted, capacity), capacity)
    decreases |sorted|
  {
    if sorted != [] && Value(capacity[id]) <= Value(capacity[sorted[0]]) {
      var rest := InsertByCapacity(id, sorted[1..], capacity);
      InsertKeepsOrder(id, sorted[1..], capacity);
      assert InsertByCapacity(id, sorted, capacity) == [sorted[0]] + rest;
      if rest[0] != id {
        assert rest[0] == sorted[1];
      }
    }
  }

  /**
   `instance_id_to_capacity.sort_by { |_, capacity| -capacity }`: the instances by
   non-increasing capacity. Ruby's sort is not stable; this one keeps ties in first-seen order.
   */
  function SortByCapacityDesc(ids: seq<string>, capacity: map<string, Num>): (r: seq<string>)
    requires forall x | x in ids :: x in capacity
    ensures multiset(r) == multiset(ids)
    ensures forall x | x in r :: x in ids
    ensures NonIncreasing(r, capacity)
  {
    if ids == [] then []
    else
      assert ids == ids[..|ids| - 1] + [ids[|ids| - 1]];
      var sorted := SortByCapacityDesc(ids[..|ids| - 1], capacity);
      InsertKeepsOrder(ids[|ids| - 1], sorted, capacity);
      InsertByCapacity(ids[|ids| - 1], sorted, capacity)
  }

  /** An instance of no higher capacity than any already sorted goes after all of them. */
  lemma {:induction false} InsertAtEnd(id: string, sorted: seq<string>, capacity: map<string, Num>)
    requires id in capacity && forall x | x in sorted :: x in capacity && Value(capacity[x]) >= Value(capacity[id])
    ensures InsertByCapacity(id, sorted, capacity) == sorted + [id]
    decreases |sorted|
  {
    if sorted != [] {
      assert sorted == [sorted[0]] + sorted[1..];
      InsertAtEnd(id, sorted[1..], capacity);
    }
  }

  /** Instances of equal capacity keep the order in which they were first seen. */
  lemma {:induction false} SortTies(ids: seq<string>, capacity: map<string, Num>, c: real)
    requires forall x | x in ids :: x in capacity && Value(capacity[x]) == c
    ensures SortByCapacityDesc(ids, capacity) == ids
    decreases |ids|
  {
    if ids != [] {
      var n := |ids| - 1;
      assert ids == ids[..n] + [ids[n]];
      SortTies(ids[..n], capacity, c);
      InsertAtEnd(ids[n], ids[..n], capacity);
    }
  }

  /** Along a non-increasing list, capacities never go up. */
  lemma {:induction false} NonIncreasingAt(s: seq<string>, capacity: map<string, Num>, a: nat, b: nat)
    requires forall x | x in s :: x in capacity
    requires NonIncreasing(s, capacity) && a <= b < |s|
    ensures Value(capacity[s[a]]) >= Value(capacity[s[b]])
    decreases b - a
  {
    if a < b {
      NonIncreasingAt(s, capacity, a, b - 1);
    }
  }

  /** Where insertion puts `id`: before the first instance of strictly lower capacity. */
  function InsertIndex(id: string, sorted: seq<string>, capacity: map<string, Num>): (k: nat)
    requires id in capacity && forall x | x in sorted :: x in capacity
    ensures k <= |sorted|
  {
    if sorted == [] || Value(capacity[id]) > Value(capacity[sorted[0]]) then 0
    else 1 + InsertIndex(id, sorted[1..], capacity)
  }

  /** Every instance before the insertion point has at least the capacity of `id`, the one at it less. */
  lemma {:induction false} InsertIndexBounds(id: string, sorted: seq<string>, capacity: map<string, Num>)
    requires id in capacity && forall x | x in sorted :: x in capacity
    ensures forall p | 0 <= p < InsertIndex(id, sorted, capacity) :: Value(capacity[sorted[p]]) >= Value(capacity[id])
    ensures InsertIndex(id, sorted, capacity) < |sorted| ==>
              Value(capacity[sorted[InsertIndex(id, sorted, capacity)]]) < Value(capacity[id])
    decreases |sorted|
  {
    if sorted != [] && Value(capacity[id]) <= Value(capacity[sorted[0]]) {
      var tail := sorted[1..];
      InsertIndexBounds(id, tail, capacity);
      var k := InsertIndex(id, tail, capacity);
      assert forall p | 1 <= p <= |tail| :: sorted[p] == tail[p - 1];
    }
  }

  /** Insertion shifts the instances from the insertion point on by one place. */
  lemma {:induction false} InsertShape(id: string, sorted: seq<string>, capacity: map<string, Num>)
    requires id in capacity && forall x | x in sorted :: x in capacity
    ensures |InsertByCapacity(id, sorted, capacity)| == |sorted| + 1
    ensures InsertByCapacity(id, sorted, capacity)[InsertIndex(id, sorted, capacity)] == id
    ensures forall p | 0 <= p < InsertIndex(id, sorted, capacity) :: InsertByCapacity(id, sorted, capacity)[p] == sorted[p]
    ensures forall p | InsertIndex(id, sorted, capacity) <= p < |sorted| :: InsertByCapacity(id, sorted, capacity)[p + 1] == sorted[p]
    decreases |sorted|
  {
    if sorted != [] && Value(capacity[id]) <= Value(capacity[sorted[0]]) {
      var tail := sorted[1..];
      InsertShape(id, tail, capacity);
      var r := InsertByCapacity(id, sorted, capacity);
      var r' := InsertByCapacity(id, tail, capacity);
      var k := InsertIndex(id, tail, capacity);
      assert r == [sorted[0]] + r';
      assert r[k + 1] == r'[k];
      forall p | 0 <= p < k + 1 ensures r[p] == sorted[p] {
        if p > 0 {
          assert r[p] == r'[p - 1] && sorted[p] == tail[p - 1];
        }
      }
      forall p | k + 1 <= p < |sorted| ensures r[p + 1] == sorted[p] {
        assert r[p + 1] == r'[p] && sorted[p] == tail[p - 1];
      }
    }
  }

  /** Some occurrence of `x` comes before some occurrence of `y` in `s`. */
  predicate Before(s: seq<string>, x: string, y: string)
  {
    exists p, q | 0 <= p < q < |s| :: s[p] == x && s[q] == y
  }

  /** Insertion keeps the order of the instances already sorted. */
  lemma InsertKeepsBefore(id: string, sorted: seq<string>, capacity: map<string, Num>, x: string, y: string)
    requires id in capacity && forall z | z in sorted :: z in capacity
    requires Before(sorted, x, y)
    ensures Before(InsertByCapacity(id, sorted, capacity), x, y)
  {
    var r := InsertByCapacity(id, sorted, capacity);
    var k := InsertIndex(id, sorted, capacity);
    InsertShape(id, sorted, capacity);
    var p, q :| 0 <= p < q < |sorted| && sorted[p] == x && sorted[q] == y;
    var p' := if p < k then p else p + 1;
    var q' := if q < k then q else q + 1;
    assert r[p'] == x && r[q'] == y;
  }

  /** An instance inserted into a non-increasing list goes after every instance of equal capacity. */
  lemma InsertAfterTie(id: string, sorted: seq<string>, capacity: map<string, Num>, x: string)
    requires id in capacity && forall z | z in sorted :: z in capacity
    requires NonIncreasing(sorted, capacity)
    requires x in sorted && Value(capacity[x]) == Value(capacity[id])
    ensures Before(InsertByCapacity(id, sorted, capacity), x, id)
  {
    var r := InsertByCapacity(id, sorted, capacity);
    var k := InsertIndex(id, sorted, capacity);
    InsertShape(id, sorted, capacity);
    var p :| 0 <= p < |sorted| && sorted[p] == x;
    assert p < k by {
      if p >= k {
        InsertIndexBounds(id, sorted, capacity);
        NonIncreasingAt(sorted, capacity, k, p);
      }
    }
    assert r[p] == x && r[k] == id;
  }

  /** The sort is stable: of two instances of equal capacity, the one seen first stays first. */
  lemma {:induction false} SortStable(ids: seq<string>, capacity: map<string, Num>, i: nat, j: nat)
    requires forall x | x in ids :: x in capacity
    requires i < j < |ids| && Value(capacity[ids[i]]) == Value(capacity[ids[j]])
    ensures Before(SortByCapacityDesc(ids, capacity), ids[i], ids[j])
    decreases |ids|
  {
    var n := |ids| - 1;
    var init := ids[..n];
    var last := ids[n];
    assert ids == init + [last];
    var sorted := SortByCapacityDesc(init, capacity);
    assert SortByCapacityDesc(ids, capacity) == InsertByCapacity(last, sorted, capacity);
    assert init[i] == ids[i];
    if j < n {
      assert init[j] == ids[j];
      SortStable(init, capacity, i, j);
      InsertKeepsBefore(last, sorted, capacity, ids[i], ids[j]);
    } else {
      assert ids[i] in multiset(sorted) by { assert ids[i] in init; }
      InsertAfterTie(last, sorted, capacity, ids[i]);
    }
  }
}
