# Mixed-instance partition assignment, modelled in Dafny

`Kafka::EC2::MixedInstanceAssignmentStrategy#assign` hands the partitions of the subscribed
topics to the members of a Kafka consumer group. Each member runs on an EC2 instance. The
strategy gives each instance a share of the partitions in proportion to its capacity. That
capacity comes from weight tables keyed by instance family (`c5`, `r4`, …) and by
availability zone.

`assign` works in three loops:

1. Per member (lines 48-56):
   - split the member's metadata `"instance_id,instance_type,az"`;
   - compute its capacity with `calculate_capacity`;
   - add the member and its capacity to its instance, and the capacity to the total.
2. The primary pass (lines 67-78):
   - `partition_count_per_capacity` is `P / total_capacity`, where `P` is the number of partitions;
   - the instances are visited by decreasing capacity;
   - each instance takes the next `round(capacity * partition_count_per_capacity)` partitions after a shared cursor `last_index`;
   - it deals them round-robin to its own members.
3. The overflow pass (lines 80-86): if the cursor stops short of `P`, the rest is dealt round-robin over every member. The order is instance first-seen order, then join order within an instance.

The project has nine files, one module each.

| file | module | what it holds |
|---|---|---|
| `wrappers.dfy` | `Wrappers` | `Option`, `Result`, `Min` |
| `numeric.dfy` | `Numeric` | Ruby's Integer/Float arithmetic, see below |
| `user_data.dfy` | `UserData` | the metadata string and Ruby's `String#split` |
| `capacity.dfy` | `Capacity` | `calculate_capacity` (lines 96-101) |
| `hosts.dfy` | `Hosts` | the first loop as a pure function (`Tabulate`), and the instance order |
| `distribution.dfy` | `Distribution` | both passes as a pure function |
| `strategy.dfy` | `Strategy` | the specification `Assignment` and the imperative `Assign` |
| `properties.dfy` | `Properties` | whole-strategy lemmas |
| `scenarios.dfy` | `Scenarios` | two of the repository's own examples, worked through |

How the two passes are described:
- `Distribution` gives the owner of every partition position: `Owners`.
- The primary pass puts one block per instance behind the cursor (`Primary`, `Cursor`).
- The overflow pass deals the rest over the flattened instance table (`Flatten`).
- What a member receives is the partitions at the positions it owns, in position order (`Received`).

`Strategy.Assign` follows the three loops of the source:
- it updates the group assignment, the two per-instance hashes, the total and the cursor step by step;
- its loops carry invariants that tie the state to these functions;
- its contract says that it computes exactly `Strategy.Assignment`.

Ruby's numbers are modelled as `Num = Int(i) | Float(f)`:
- Integer with Integer stays an Integer, so `/` at line 67 is floor division when every weight is an Integer;
- anything that involves a Float is a Float;
- `Float#round` rounds half away from zero.

The errors the source raises are results, not preconditions:
- a member with no metadata (`nil.split`);
- metadata with fewer than two fields (`nil.split` on the instance type);
- an Integer total capacity of 0 (`ZeroDivisionError` at line 67);
- a Float total capacity of 0.0 (`NaN.round` raises `FloatDomainError` at line 70).

The only precondition is that no weight is negative.

## Model

Source paths are relative to the repository root; unqualified line numbers in this file refer
to `lib/kafka/ec2/mixed_instance_assignment_strategy.rb`.

| member | source | states |
|---|---|---|
| Numeric.Add | lib/kafka/ec2/mixed_instance_assignment_strategy.rb:54-55 | `+=` on capacities: the value is the sum, and it is an Integer exactly when both operands are |
| Numeric.Mul | lib/kafka/ec2/mixed_instance_assignment_strategy.rb:100 | the product of two weights: value is the product, Integer iff both are, non-negative (positive) for non-negative (positive) operands |
| Numeric.FloorDiv | lib/kafka/ec2/mixed_instance_assignment_strategy.rb:67 | Integer division rounds towards negative infinity: `b*q <= a < b*q + b` for a positive divisor, mirrored for a negative one |
| Numeric.FloorDivSmall | lib/kafka/ec2/mixed_instance_assignment_strategy.rb:67 | fewer partitions than an Integer total capacity give `partition_count_per_capacity == 0` |
| Numeric.Div | lib/kafka/ec2/mixed_instance_assignment_strategy.rb:67 | `P / total_capacity`: floor division between Integers, real quotient once a Float is involved, never negative |
| Numeric.Round | lib/kafka/ec2/mixed_instance_assignment_strategy.rb:70 | `round`: within 1/2 of the value, a tie goes away from zero, Integers are unchanged, non-negative values round to naturals |
| UserData.IndexOf | lib/kafka/ec2/mixed_instance_assignment_strategy.rb:51 | the position found holds the separator and no earlier position does |
| UserData.SplitAll | lib/kafka/ec2/mixed_instance_assignment_strategy.rb:51 | the fields contain no separator and joining them with it gives the string back |
| UserData.DropTrailingEmpty | lib/kafka/ec2/mixed_instance_assignment_strategy.rb:51 | `split` drops exactly the trailing empty fields: a prefix whose last field is non-empty, all fields after it empty |
| UserData.RubySplit | lib/kafka/ec2/mixed_instance_assignment_strategy.rb:51 | `String#split(sep)`: all the fields up to the last non-empty one; every field it drops is empty, none it keeps contains the separator |
| UserData.SplitJoin | lib/kafka/ec2/mixed_instance_assignment_strategy.rb:51 | splitting joined separator-free fields gives the fields back |
| UserData.Decode | lib/kafka/ec2/mixed_instance_assignment_strategy.rb:51 | `instance_id, instance_type, az = metadata.split(",")`: no result exactly when there are fewer than two fields; every field is comma-free |
| UserData.DecodeFields | lib/kafka/ec2/mixed_instance_assignment_strategy.rb:51 | three comma-free fields with a non-empty zone decode to exactly those fields |
| UserData.DecodeEncode | lib/kafka/ec2/ext/protocol/join_group_request.rb:20 | decoding `"|id,type,az"` behind a prefix that holds no comma gives the type and zone back, with the prefix and `|` glued to the instance id |
| UserData.DecodeAfterComma | lib/kafka/ec2/mixed_instance_assignment_strategy.rb:51 | a comma just before the user data shifts every field: the prefix becomes the instance id, `|id` the instance type, and the instance type the zone |
| UserData.Family | lib/kafka/ec2/mixed_instance_assignment_strategy.rb:97 | the family is a dot-free prefix of the instance type, followed by a dot when shorter; it is nil exactly when the instance type is nothing but dots |
| UserData.OnlySeparators | lib/kafka/ec2/mixed_instance_assignment_strategy.rb:97 | every field between separators is empty exactly when the string is nothing but separators |
| UserData.FamilyOfInstanceType | lib/kafka/ec2/mixed_instance_assignment_strategy.rb:97 | the family of `family.size` is `family` |
| Capacity.DigTranspose | lib/kafka/ec2/mixed_instance_assignment_strategy.rb:99 | `dig(a, b)` on a table finds the same entry as `dig(b, a)` on the table with its levels swapped, or none in both |
| Capacity.CalculateCapacity | lib/kafka/ec2/mixed_instance_assignment_strategy.rb:96-101 | a member's capacity is non-negative for non-negative weights, positive for positive weights, and the Integer 1 with empty tables |
| Capacity.Transpose | spec/kafka/ec2/mixed_instance_assignment_strategy_spec.rb:194-250 | the nested table with its two levels swapped: the same entries, under swapped keys |
| Capacity.TransposeNonNegative | spec/kafka/ec2/mixed_instance_assignment_strategy_spec.rb:194-250 | swapping the levels keeps the weights non-negative |
| Capacity.CapacityOrientationInvariant | lib/kafka/ec2/mixed_instance_assignment_strategy.rb:99 | when zone and family names are distinct, keying `weights` zone-first or family-first gives the same capacity |
| Hosts.MemberProfile | lib/kafka/ec2/mixed_instance_assignment_strategy.rb:51-53 | a member resolves exactly when its metadata is present with at least two fields; which error it raises otherwise; its capacity is non-negative |
| Hosts.Record | lib/kafka/ec2/mixed_instance_assignment_strategy.rb:52-55 | one member: only its instance changes (member appended, capacity added), the total grows by its capacity, a new instance goes to the end of the order |
| Hosts.RecordWellFormed | lib/kafka/ec2/mixed_instance_assignment_strategy.rb:52-55 | one step keeps the table well formed: same keys in both hashes, distinct first-seen order, non-empty member lists, non-negative capacities |
| Hosts.ResolveFacts | lib/kafka/ec2/mixed_instance_assignment_strategy.rb:48-53 | resolved capacities are non-negative, and all members resolve exactly when all metadata is readable |
| Hosts.Tabulate | lib/kafka/ec2/mixed_instance_assignment_strategy.rb:48-56 | the first loop succeeds exactly when every member resolves, and leaves a well-formed table |
| Hosts.TabulateFailsAtFirst | lib/kafka/ec2/mixed_instance_assignment_strategy.rb:48-56 | on failure, the error is that of a member all of whose predecessors resolved |
| Hosts.TabulateNext | lib/kafka/ec2/mixed_instance_assignment_strategy.rb:48-56 | the loop at one member: it stops with that member's error or goes on with the member recorded |
| Hosts.TabulateAt | lib/kafka/ec2/mixed_instance_assignment_strategy.rb:48-56 | the same step at any position of the member list |
| Hosts.TabulateStep | lib/kafka/ec2/mixed_instance_assignment_strategy.rb:48-56 | the same step for a list whose members all resolve |
| Hosts.TabulateTotal | lib/kafka/ec2/mixed_instance_assignment_strategy.rb:55 | the loop adds the sum of the members' capacities to the total |
| Hosts.RecordMembers | lib/kafka/ec2/mixed_instance_assignment_strategy.rb:52 | one step appends the member to its own instance's list and to no other |
| Hosts.TabulateMembers | lib/kafka/ec2/mixed_instance_assignment_strategy.rb:52 | the loop appends to each instance's list the members on it, in join order |
| Hosts.TabulateCapacity | lib/kafka/ec2/mixed_instance_assignment_strategy.rb:54 | the loop adds to each instance's capacity the sum of its members' capacities |
| Hosts.MembersOnAreMembers | lib/kafka/ec2/mixed_instance_assignment_strategy.rb:52 | a member listed on an instance is one of the members visited |
| Hosts.EmptyWellFormed | lib/kafka/ec2/mixed_instance_assignment_strategy.rb:41-43 | the empty hashes and the total 0 form a well-formed table |
| Hosts.HostTotal | lib/kafka/ec2/mixed_instance_assignment_strategy.rb:55 | `total_capacity` is the sum of all members' capacities |
| Hosts.HostMembers | lib/kafka/ec2/mixed_instance_assignment_strategy.rb:52 | `instance_id_to_member_ids[id]` is the members whose first metadata field is `id`, in join order |
| Hosts.HostCapacity | lib/kafka/ec2/mixed_instance_assignment_strategy.rb:54 | `instance_id_to_capacity[id]` is the sum of the capacities of the members on `id` |
| Hosts.HostMembersAreMembers | lib/kafka/ec2/mixed_instance_assignment_strategy.rb:52 | every member id in the table is one of `members` |
| Hosts.FirstOn | lib/kafka/ec2/mixed_instance_assignment_strategy.rb:48-52 | the position of the first member on an instance: it is on that instance and no earlier member is |
| Hosts.MembersOnContains | lib/kafka/ec2/mixed_instance_assignment_strategy.rb:52 | every member is among the members found on its own instance |
| Hosts.TabulateOrder | lib/kafka/ec2/mixed_instance_assignment_strategy.rb:48-56 | the loop only appends to the instance order, and each instance it appends comes after the ones before it by the position of its first member |
| Hosts.InstanceOrder | lib/kafka/ec2/mixed_instance_assignment_strategy.rb:48-56 | the keys of `instance_id_to_member_ids` are exactly the members' instances, each once, ordered by when their first members joined |
| Hosts.InsertByCapacity | lib/kafka/ec2/mixed_instance_assignment_strategy.rb:69 | insertion adds exactly the one instance (as a multiset) and it or the old head comes first |
| Hosts.InsertKeepsOrder | lib/kafka/ec2/mixed_instance_assignment_strategy.rb:69 | inserting into a non-increasing order keeps it non-increasing |
| Hosts.SortByCapacityDesc | lib/kafka/ec2/mixed_instance_assignment_strategy.rb:69 | `sort_by { -capacity }`: a permutation of the instances, in non-increasing capacity |
| Hosts.InsertAtEnd | lib/kafka/ec2/mixed_instance_assignment_strategy.rb:69 | an instance of no higher capacity than any already sorted goes last |
| Hosts.SortTies | lib/kafka/ec2/mixed_instance_assignment_strategy.rb:69 | a list whose instances all share one capacity is left unchanged |
| Hosts.InsertIndexBounds | lib/kafka/ec2/mixed_instance_assignment_strategy.rb:69 | every instance before the insertion point has at least the inserted capacity, the one at it strictly less |
| Hosts.InsertShape | lib/kafka/ec2/mixed_instance_assignment_strategy.rb:69 | insertion puts the instance at the insertion point and shifts the instances from there on by one place |
| Hosts.NonIncreasingAt | lib/kafka/ec2/mixed_instance_assignment_strategy.rb:69 | along a non-increasing order no later instance has a higher capacity than an earlier one |
| Hosts.InsertKeepsBefore | lib/kafka/ec2/mixed_instance_assignment_strategy.rb:69 | insertion keeps the relative order of the instances already sorted |
| Hosts.InsertAfterTie | lib/kafka/ec2/mixed_instance_assignment_strategy.rb:69 | an inserted instance goes after every already sorted instance of the same capacity |
| Hosts.SortStable | lib/kafka/ec2/mixed_instance_assignment_strategy.rb:69 | the sort is stable: of any two instances of equal capacity, the one seen first comes first, whatever the other capacities |
| Distribution.Deal | lib/kafka/ec2/mixed_instance_assignment_strategy.rb:72-75 | `each_with_index` over `n` positions deals exactly `n` owners |
| Distribution.DealAt | lib/kafka/ec2/mixed_instance_assignment_strategy.rb:73 | position `k` goes to `member_ids[k % member_ids.size]` |
| Distribution.DealSnoc | lib/kafka/ec2/mixed_instance_assignment_strategy.rb:73 | one more position appends the next member round-robin |
| Distribution.DealPrefix | lib/kafka/ec2/mixed_instance_assignment_strategy.rb:72-75 | dealing fewer positions gives a prefix of dealing more |
| Distribution.DealMembers | lib/kafka/ec2/mixed_instance_assignment_strategy.rb:73 | only the instance's own members are dealt to |
| Distribution.DealCount | lib/kafka/ec2/mixed_instance_assignment_strategy.rb:72-75 | member `j` of distinct members receives `n / size` positions, plus one if `j < n % size` |
| Distribution.DealFair | lib/kafka/ec2/mixed_instance_assignment_strategy.rb:72-75 | co-located members' counts differ by at most one, and an earlier member never gets fewer than a later one |
| Distribution.WellFormedWalkable | lib/kafka/ec2/mixed_instance_assignment_strategy.rb:69-71 | every instance of a well-formed table has members and a non-negative capacity |
| Distribution.BlockSize | lib/kafka/ec2/mixed_instance_assignment_strategy.rb:70 | `(capacity * partition_count_per_capacity).round` is a natural, and 0 for an Integer capacity when the quotient is Integer 0 |
| Distribution.Primary | lib/kafka/ec2/mixed_instance_assignment_strategy.rb:68-78 | the blocks of the first `j` instances, laid end to end, have exactly the cursor's length |
| Distribution.Flatten | lib/kafka/ec2/mixed_instance_assignment_strategy.rb:81 | `instance_id_to_member_ids.values.flatten` holds every member of every instance walked, and is at least one member per instance long |
| Distribution.Owners | lib/kafka/ec2/mixed_instance_assignment_strategy.rb:67-86 | exactly one owner for each of the `P` partition positions |
| Distribution.PrimaryOnHosts | lib/kafka/ec2/mixed_instance_assignment_strategy.rb:71-73 | the primary pass only deals to members listed in the table |
| Distribution.FlattenOnHosts | lib/kafka/ec2/mixed_instance_assignment_strategy.rb:81 | the flattened list holds only members listed in the table |
| Distribution.OwnersOnHosts | lib/kafka/ec2/mixed_instance_assignment_strategy.rb:67-86 | every owner is a member listed in the table |
| Distribution.ReceivedStep | lib/kafka/ec2/mixed_instance_assignment_strategy.rb:74 | `assign(topic, [partition])` for one more position grows only its owner's list, by that partition |
| Distribution.ReceivedCount | lib/kafka/ec2/mixed_instance_assignment_strategy.rb:74 | a member receives as many partitions as the positions it owns |
| Distribution.CollectStep | lib/kafka/ec2/mixed_instance_assignment_strategy.rb:74 | one more position adds its partition once to what the members together hold |
| Distribution.CollectComplete | lib/kafka/ec2/mixed_instance_assignment_strategy.rb:67-86 | when every owner is one of the members, together they hold each dealt partition exactly once (as a multiset) |
| Distribution.CollectSnoc | lib/kafka/ec2/mixed_instance_assignment_strategy.rb:74 | completeness extends by one position |
| Distribution.PrimaryPrefix | lib/kafka/ec2/mixed_instance_assignment_strategy.rb:72-77 | a later instance only extends the owners laid out before it: blocks never overlap |
| Distribution.CursorMonotone | lib/kafka/ec2/mixed_instance_assignment_strategy.rb:77 | `last_index` never decreases |
| Distribution.PrimaryOwner | lib/kafka/ec2/mixed_instance_assignment_strategy.rb:72-73 | the partition at `last_index + index` of an instance's block (below `P`) goes to `member_ids[index % member_ids.size]` of that instance |
| Distribution.PrimaryStepBelow | lib/kafka/ec2/mixed_instance_assignment_strategy.rb:72-77 | with the cursor at most `P`, an instance deals `min(cursor + block, P) - cursor` positions (`topic_partitions[last_index, n]` cut at the end) and the cursor advances by its block |
| Distribution.PrimaryStepAbove | lib/kafka/ec2/mixed_instance_assignment_strategy.rb:72-77 | with the cursor past `P`, the slice is nil and nothing is dealt, but the cursor still advances |
| Distribution.OwnersBelowCursor | lib/kafka/ec2/mixed_instance_assignment_strategy.rb:72-75 | positions before the final cursor are owned as the primary pass dealt them |
| Distribution.OverflowOwner | lib/kafka/ec2/mixed_instance_assignment_strategy.rb:80-85 | position `last_index + index` goes to `member_ids[index % member_ids.size]` of the flattened table |
| Distribution.OwnersAboveCursor | lib/kafka/ec2/mixed_instance_assignment_strategy.rb:80-85 | positions after the final cursor are dealt round-robin from index 0 over the flattened table |
| Strategy.Assignment | lib/kafka/ec2/mixed_instance_assignment_strategy.rb:39-88 | the result of `assign`: on success its keys are exactly the members |
| Strategy.Distribute | lib/kafka/ec2/mixed_instance_assignment_strategy.rb:49 | every member has an entry, even with nothing owned |
| Strategy.DistributeExtensional | lib/kafka/ec2/mixed_instance_assignment_strategy.rb:74 | a map with the members as keys and each member's received partitions is the distribution |
| Strategy.DealSlice | lib/kafka/ec2/mixed_instance_assignment_strategy.rb:72-75 | `topic_partitions[lo...hi].each_with_index`: the same keys, and each member now holds what it receives once the round-robin deal of `hi - lo` positions is appended to the owners |
| Strategy.RecordWithin | lib/kafka/ec2/mixed_instance_assignment_strategy.rb:52 | recording a member keeps every listed member among `members` |
| Strategy.UnassignedStep | lib/kafka/ec2/mixed_instance_assignment_strategy.rb:49 | one more iteration adds the member with an empty assignment |
| Strategy.UnassignedFacts | lib/kafka/ec2/mixed_instance_assignment_strategy.rb:49 | after the first loop, every member, and nothing else, has an empty assignment |
| Strategy.AddMember | lib/kafka/ec2/mixed_instance_assignment_strategy.rb:52-55 | updating the two hashes and the total in place gives exactly `Record` of the old table |
| Strategy.Aggregate | lib/kafka/ec2/mixed_instance_assignment_strategy.rb:48-56 | the first loop: it fails with the first unreadable member's error, else returns the table `HostsOf` specifies and every member with an empty assignment |
| Strategy.VisitInstance | lib/kafka/ec2/mixed_instance_assignment_strategy.rb:70-77 | one instance of the primary pass: the keys are unchanged, the cursor moves to the next `Cursor`, and every member holds what the owners so far give it |
| Strategy.PrimaryPass | lib/kafka/ec2/mixed_instance_assignment_strategy.rb:68-78 | the primary pass: final cursor is `Cursor` of all instances, and every member holds exactly its share of the primary blocks cut at `P` |
| Strategy.WithinKeys | lib/kafka/ec2/mixed_instance_assignment_strategy.rb:73 | every member the passes deal to has an entry in the group assignment |
| Strategy.OwnersAfterPrimary | lib/kafka/ec2/mixed_instance_assignment_strategy.rb:80-86 | the overflow runs exactly when the cursor is below `P`, and then the owners are the primary ones followed by the round-robin over the flattened table |
| Strategy.AssignmentOnHosts | lib/kafka/ec2/mixed_instance_assignment_strategy.rb:67-86 | with a non-zero total, the result is the distribution over the owners of the two passes, in the sorted instance order |
| Strategy.Assign | lib/kafka/ec2/mixed_instance_assignment_strategy.rb:39-88 | the three loops of `assign` compute exactly `Assignment`, error cases included |
| Properties.GatherDistribute | lib/kafka/ec2/mixed_instance_assignment_strategy.rb:74 | concatenating the members' lists is collecting the partitions of their positions |
| Properties.AssignmentComplete | lib/kafka/ec2/mixed_instance_assignment_strategy.rb:67-86 | every member has an entry, and the lists of all members together hold every `(topic, partition)` exactly as often as `topic_partitions` does: no omission, no duplicate |
| Properties.FlattenAllMembers | lib/kafka/ec2/mixed_instance_assignment_strategy.rb:81 | the list the overflow deals over holds exactly the members of the group |
| Properties.MembersOnDistinct | lib/kafka/ec2/mixed_instance_assignment_strategy.rb:52 | the members found on one instance are distinct when the members are |
| Properties.InstanceMembersDistinct | lib/kafka/ec2/mixed_instance_assignment_strategy.rb:71-73 | in a group of distinct members every instance's `member_ids` is distinct, so `DealCount` and `DealFair` apply to the lists the primary pass deals over |
| Properties.TotalOfPositive | lib/kafka/ec2/mixed_instance_assignment_strategy.rb:55 | the total of non-negative capacities is positive exactly when some member's is |
| Properties.PositiveTotal | lib/kafka/ec2/mixed_instance_assignment_strategy.rb:55 | the total capacity is positive exactly when some member has a positive capacity |
| Properties.AssignmentSucceeds | lib/kafka/ec2/mixed_instance_assignment_strategy.rb:48-70 | `assign` returns exactly when every member's metadata is readable and some member has a positive capacity |
| Properties.AssignmentFailsAtFirst | lib/kafka/ec2/mixed_instance_assignment_strategy.rb:48-53 | with unreadable metadata, `assign` raises the error of the first member that has it |
| Properties.NoMembers | lib/kafka/ec2/mixed_instance_assignment_strategy.rb:67 | an empty group raises `ZeroDivisionError` |
| Properties.AssignmentOrientationInvariant | lib/kafka/ec2/mixed_instance_assignment_strategy.rb:99 | when zone and family names are distinct, both nestings of `weights` give the same assignment |
| Properties.AssignmentCounts | lib/kafka/ec2/mixed_instance_assignment_strategy.rb:72-85 | a member receives as many partitions as the positions the two passes give it |
| Properties.IntegerProfile | lib/kafka/ec2/mixed_instance_assignment_strategy.rb:100 | with Integer weights, every capacity is an Integer |
| Properties.TabulateInteger | lib/kafka/ec2/mixed_instance_assignment_strategy.rb:54-55 | summing Integer capacities keeps the table Integer |
| Properties.HostsInteger | lib/kafka/ec2/mixed_instance_assignment_strategy.rb:54-55 | with Integer weights, every instance capacity and the total are Integers |
| Properties.PrimaryEmpty | lib/kafka/ec2/mixed_instance_assignment_strategy.rb:70 | with an Integer quotient of 0, the primary pass deals nothing |
| Properties.IntegerWeightsIgnoreCapacity | lib/kafka/ec2/mixed_instance_assignment_strategy.rb:67 | with Integer weights and fewer partitions than the total capacity, `P / total` floors to 0 and every partition goes round-robin over the flattened table, whatever the capacities |
| Scenarios.WeightedValid | spec/kafka/ec2/mixed_instance_assignment_strategy_spec.rb:22-38 | the example's family and zone weights are non-negative |
| Scenarios.ReadMember | lib/kafka/ec2/mixed_instance_assignment_strategy.rb:96-101 | with no nested `weights`, a member of type `family.size` in zone `az` gets the family weight times the zone weight, each defaulting to 1 |
| Scenarios.RecordNew | lib/kafka/ec2/mixed_instance_assignment_strategy.rb:52-55 | a member on a new instance opens an entry at the end of the order |
| Scenarios.TabulateFresh | lib/kafka/ec2/mixed_instance_assignment_strategy.rb:52-55 | the first loop at a member on a new instance continues from the table with that entry added |
| Scenarios.TabulateTwo | lib/kafka/ec2/mixed_instance_assignment_strategy.rb:48-56 | the first loop over two members on different instances |
| Scenarios.ZoneAProfile | spec/kafka/ec2/mixed_instance_assignment_strategy_spec.rb:26-37 | an `xlarge` member in zone a gets its family weight |
| Scenarios.PairProfiles | spec/kafka/ec2/mixed_instance_assignment_strategy_spec.rb:102-105 | the c5 and m5 members have capacities 1.25 and 1.13 |
| Scenarios.PairHosts | spec/kafka/ec2/mixed_instance_assignment_strategy_spec.rb:102-105 | the c5 and m5 members give two instances of capacity 1.25 and 1.13, total 2.38 |
| Scenarios.PairSorted | lib/kafka/ec2/mixed_instance_assignment_strategy.rb:69 | the c5 instance sorts first |
| Scenarios.PairOwners | spec/kafka/ec2/mixed_instance_assignment_strategy_spec.rb:108-113 | with one partition the c5 block rounds to 1 and the m5 block to 0, so the c5 member owns the partition |
| Scenarios.SoleOwner | lib/kafka/ec2/mixed_instance_assignment_strategy.rb:72-74 | the owner of the one position gets it and the other member gets nothing |
| Scenarios.OnePartition | spec/kafka/ec2/mixed_instance_assignment_strategy_spec.rb:96-113 | one partition, c5 and m5 members: the c5 member gets it, the m5 member nothing |
| Scenarios.OnePartitionExample | spec/kafka/ec2/mixed_instance_assignment_strategy_spec.rb:96-113 | the same with the example's member and instance ids |
| Scenarios.TripleProfiles | spec/kafka/ec2/mixed_instance_assignment_strategy_spec.rb:120-124 | three r4 members in zone a each have the Integer capacity 1 |
| Scenarios.TabulateThree | lib/kafka/ec2/mixed_instance_assignment_strategy.rb:48-56 | the first loop over three members on different instances of capacity 1 gives total 3 |
| Scenarios.TripleHosts | spec/kafka/ec2/mixed_instance_assignment_strategy_spec.rb:120-124 | the three r4 members give three instances of capacity 1 and total 3 |
| Scenarios.TripleSorted | lib/kafka/ec2/mixed_instance_assignment_strategy.rb:69 | three instances of equal capacity keep their first-seen order |
| Scenarios.DealThree | lib/kafka/ec2/mixed_instance_assignment_strategy.rb:72-73 | three positions dealt over one member all go to it |
| Scenarios.TripleWellFormed | lib/kafka/ec2/mixed_instance_assignment_strategy.rb:48-56 | the three-instance table is well formed |
| Scenarios.TriplePrimary | lib/kafka/ec2/mixed_instance_assignment_strategy.rb:68-78 | with `10 / 3 = 3`, each instance takes a block of 3 in turn |
| Scenarios.TripleFlatten | lib/kafka/ec2/mixed_instance_assignment_strategy.rb:81 | the flattened table is the three members in first-seen order |
| Scenarios.TripleOwners | spec/kafka/ec2/mixed_instance_assignment_strategy_spec.rb:116-131 | nine positions in blocks of 3, and the tenth to the first member of the flattened table |
| Scenarios.TripleCounts | spec/kafka/ec2/mixed_instance_assignment_strategy_spec.rb:130 | those owners count 4, 3 and 3 |
| Scenarios.TenPartitions | spec/kafka/ec2/mixed_instance_assignment_strategy_spec.rb:116-131 | ten partitions over three r4 members: every member has an entry and the counts are 4, 3 and 3 |
| Scenarios.TenPartitionsExample | spec/kafka/ec2/mixed_instance_assignment_strategy_spec.rb:116-131 | the same with the example's ids and partitions 0 to 9 |

## Left out

- The retry on `Kafka::LeaderNotAvailable` (lines 89-91) is not modelled. It is a sleep-and-retry on an error raised by the cluster.
- The partition lookup (lines 58-65) is not modelled. `@cluster.partitions_for` and the `UnknownTopicOrPartition` re-raise are cluster calls, so `topic_partitions` is an input.
  - The model therefore holds for any order of that sequence.
- Weight tables given as procs (lines 45-47) are modelled by the tables the procs return on this call.
- `member_id_to_metadata` is an input map from member id to the metadata string.
- The result is `map<string, seq<(topic, partition)>>`, not `Protocol::MemberAssignment`. `MemberAssignment#topics` is that list grouped by topic.
  - A member that receives nothing holds `[]`; in the source its `topics["topic"]` is nil.
- Floats are exact reals; IEEE-754 rounding is not modelled.
- The per-member counts of the 500-partition examples in `spec/kafka/ec2/mixed_instance_assignment_strategy_spec.rb` (lines 68-93 and 171-250) are not reproduced. Working 18 members and 500 partitions through the model would be far larger than the two worked scenarios.
- Line 51 splits the whole protocol-encoded metadata (`ConsumerGroupProtocol.encode`, line 9), not just the user data. A length field before the user data can be 44, the byte of a comma. `UserData.DecodeAfterComma` shows the effect: every field shifts by one. Such a member's instance id is then the protocol bytes, which members with the same subscriptions share, and its capacity falls back to the default weights. The model decodes the metadata string exactly as line 51 does; the protocol encoding itself is not modelled.
- Ruby's `sort_by` is not stable. `Hosts.SortByCapacityDesc` keeps instances of equal capacity in first-seen order (`Hosts.SortStable`). The whole-strategy properties hold for that order; those in `Distribution` hold for any instance order.
- The monkey patches of ruby-kafka and the HTTP calls to the instance metadata service (`lib/kafka/ec2/ext/*.rb`) are not modelled. Only the user-data format of `join_group_request.rb:20` is modelled.
- The global factory slot (`lib/kafka/ec2.rb`), the factory (`mixed_instance_assignment_strategy_factory.rb`) and the benchmarks are not part of this model.
- Negative weights are excluded by the one precondition, `Capacity.ValidConfig`. With them the cursor could move backwards and a capacity could be negative.
- Ruby's `||` treats only nil and false as missing. A zero weight in `weights` is therefore used as is, and the model does the same.
- Scenarios.TenPartitions: states the counts 4, 3 and 3 that the example checks, not which partitions each member gets.
- Scenarios.OnePartitionExample and Scenarios.TenPartitionsExample: build the metadata strings with `Scenarios.Metadata` instead of writing them as literals. They are the same strings.
