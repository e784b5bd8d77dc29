/**
 How `assign` hands out the partitions once the host table is known, written as the owner of
 every partition position. The primary pass (lines 67-78 of the strategy) visits the instances
 in a given order and deals a block of `round(capacity * P / total)` positions, starting at a
 cursor, round-robin over the instance's members; the overflow pass (lines 80-86) deals what is
 left after the cursor round-robin over every member.
 */
module Distribution {
  import opened Wrappers
  import opened Numeric
  import opened Hosts

  /** A `(topic, partition_id)` pair of `topic_partitions`. */
  type TopicPartition = (string, int)

  predicate Distinct(s: seq<string>)
  {
    forall i, j | 0 <= i < j < |s| :: s[i] != s[j]
  }

  /**
   `each_with_index { member_ids[index % member_ids.size] }` over `n` positions: whole rounds
   of the members, then the first members of one more round.
   */
  function Deal(ids: seq<string>, n: nat): (r: seq<string>)
    requires |ids| > 0
    ensures |r| == n
  {
    if n <= |ids| then ids[..n] else ids + Deal(ids, n - |ids|)
  }

  /** A positive multiple of `d` is at least `d`. */
  lemma MultipleAtLeast(k: int, d: int)
    requires k >= 1 && d > 0
    ensures k * d >= d
  {
    assert k * d == (k - 1) * d + d;
    assert (k - 1) * d >= 0;
  }

  /** Euclidean quotient and remainder are unique. */
  lemma DivModUnique(a: int, d: int, q: int, r: int)
    requires d > 0 && a == q * d + r && 0 <= r < d
    ensures a / d == q && a % d == r
  {
    var q0, r0 := a / d, a % d;
    assert a == q0 * d + r0;
    assert (q - q0) * d == r0 - r by {
      assert q * d - q0 * d == (q - q0) * d;
    }
    if q > q0 {
      MultipleAtLeast(q - q0, d);
    } else if q < q0 {
      MultipleAtLeast(q0 - q, d);
    }
  }

  /** One more whole round: the quotient grows by one, the remainder stays. */
  lemma DivModRound(n: nat, d: nat)
    requires d > 0 && n >= d
    ensures n / d == (n - d) / d + 1 && n % d == (n - d) % d
  {
    var q, r := (n - d) / d, (n - d) % d;
    assert n - d == q * d + r;
    assert n == (q + 1) * d + r;
    DivModUnique(n, d, q + 1, r);
  }

  /** Position `k` of a deal goes to the member `k % ids.size`. */
  lemma {:induction false} DealAt(ids: seq<string>, n: nat, k: nat)
    requires |ids| > 0 && k < n
    ensures Deal(ids, n)[k] == ids[k % |ids|]
    decreases n
  {
    var d := |ids|;
    if k < d {
      DivModUnique(k, d, 0, k);
    } else {
      DealAt(ids, n - d, k - d);
      DivModRound(k, d);
    }
  }

  /** Dealing one more position appends the member `n % ids.size`. */
  lemma DealSnoc(ids: seq<string>, n: nat)
    requires |ids| > 0
    ensures Deal(ids, n + 1) == Deal(ids, n) + [ids[n % |ids|]]
  {
    forall k | 0 <= k < n + 1 ensures Deal(ids, n + 1)[k] == (Deal(ids, n) + [ids[n % |ids|]])[k] {
      DealAt(ids, n + 1, k);
      if k < n {
        DealAt(ids, n, k);
      }
    }
  }

  /** The first positions of a longer deal are a shorter deal. */
  lemma DealPrefix(ids: seq<string>, k: nat, n: nat)
    requires |ids| > 0 && k <= n
    ensures Deal(ids, n)[..k] == Deal(ids, k)
  {
    forall i | 0 <= i < k ensures Deal(ids, n)[i] == Deal(ids, k)[i] {
      DealAt(ids, n, i);
      DealAt(ids, k, i);
    }
  }

  /** A deal only hands positions to the members it deals over. */
  lemma {:induction false} DealMembers(ids: seq<string>, n: nat)
    requires |ids| > 0
    ensures forall x | x in Deal(ids, n) :: x in ids
    decreases n
  {
    if n > |ids| {
      DealMembers(ids, n - |ids|);
    } else {
      assert forall x | x in ids[..n] :: x in ids;
    }
  }

  /** Among distinct members, the first `n` hold `ids[j]` once when `j < n`. */
  lemma {:induction false} CountInPrefix(ids: seq<string>, n: nat, j: nat)
    requires Distinct(ids) && n <= |ids| && j < |ids|
    ensures multiset(ids[..n])[ids[j]] == if j < n then 1 else 0
  {
    if n > 0 {
      CountInPrefix(ids, n - 1, j);
      assert ids[..n] == ids[..n - 1] + [ids[n - 1]];
      assert ids[n - 1] == ids[j] <==> n - 1 == j;
    }
  }

  /**
   Dealing `n` positions over `L` distinct members gives the member at index `j`
   `n / L` positions, plus one when `j < n % L`.
   */
  lemma {:induction false} DealCount(ids: seq<string>, n: nat, j: nat)
    requires |ids| > 0 && Distinct(ids) && j < |ids|
    ensures multiset(Deal(ids, n))[ids[j]] == n / |ids| + (if j < n % |ids| then 1 else 0)
    decreases n
  {
    var d := |ids|;
    if n < d {
      CountInPrefix(ids, n, j);
      DivModUnique(n, d, 0, n);
    } else if n == d {
      CountInPrefix(ids, n, j);
      assert ids[..n] == ids;
      DivModUnique(n, d, 1, 0);
    } else {
      DealCount(ids, n - d, j);
      CountInPrefix(ids, d, j);
      assert ids[..d] == ids;
      DivModRound(n, d);
    }
  }

  /** Co-located members' counts differ by at most one, and an earlier member never has fewer. */
  lemma DealFair(ids: seq<string>, n: nat, i: nat, j: nat)
    requires |ids| > 0 && Distinct(ids) && i < j < |ids|
    ensures multiset(Deal(ids, n))[ids[j]] <= multiset(Deal(ids, n))[ids[i]] <= multiset(Deal(ids, n))[ids[j]] + 1
  {
    DealCount(ids, n, i);
    DealCount(ids, n, j);
  }

  /** A member id that the host table lists under some instance. */
  predicate OnHosts(x: string, t: HostTable)
  {
    exists id | id in t.memberIds :: x in t.memberIds[id]
  }

  /** What the passes need of the host table: every instance has members and a capacity >= 0. */
  predicate Dealable(t: HostTable)
  {
    forall id | id in t.memberIds :: id in t.capacity && |t.memberIds[id]| > 0 && Value(t.capacity[id]) >= 0.0
  }

  /** An instance order the passes can walk. */
  predicate Walkable(order: seq<string>, t: HostTable)
  {
    Dealable(t) && forall id | id in order :: id in t.memberIds
  }

  lemma WellFormedWalkable(t: HostTable)
    requires WellFormed(t)
    ensures Walkable(t.order, t)
  {
  }

  /** `(capacity * partition_count_per_capacity).round` for one instance. */
  function BlockSize(t: HostTable, id: string, per: Num): (n: nat)
    requires Dealable(t) && id in t.memberIds && Value(per) >= 0.0
    ensures per == Int(0) && t.capacity[id].Int? ==> n == 0
  {
    Round(Mul(t.capacity[id], per))
  }

  /** `last_index` after the primary pass has visited the first `j` instances of `order`. */
  function Cursor(order: seq<string>, t: HostTable, per: Num, j: nat): nat
    requires Walkable(order, t) && Value(per) >= 0.0 && j <= |order|
  {
    if j == 0 then 0 else Cursor(order, t, per, j - 1) + BlockSize(t, order[j - 1], per)
  }

  /**
   The owners the primary pass gives to the positions from 0 up to its cursor, before the
   cut at the number of partitions: one round-robin block for each of the first `j`
   instances of `order`.
   */
  function Primary(order: seq<string>, t: HostTable, per: Num, j: nat): (r: seq<string>)
    requires Walkable(order, t) && Value(per) >= 0.0 && j <= |order|
    ensures |r| == Cursor(order, t, per, j)
  {
    if j == 0 then []
    else Primary(order, t, per, j - 1) + Deal(t.memberIds[order[j - 1]], BlockSize(t, order[j - 1], per))
  }

  /** `instance_id_to_member_ids.values.flatten` over the instances of `order`. */
  function Flatten(order: seq<string>, t: HostTable): (r: seq<string>)
    requires Walkable(order, t)
    ensures |r| >= |order|
    ensures forall id, m | id in order && m in t.memberIds[id] :: m in r
  {
    if order == [] then []
    else
      var id := order[|order| - 1];
      assert |t.memberIds[id]| > 0;
      assert forall x | x in order :: x == id || x in order[..|order| - 1] by {
        assert order == order[..|order| - 1] + [id];
      }
      Flatten(order[..|order| - 1], t) + t.memberIds[id]
  }

  /**
   The owner of every one of the `P` positions: the primary blocks of all of `order` cut at
   `P`, then, when the cursor stops short of `P`, the rest dealt over every member in
   first-seen instance order.
   */
  function Owners(order: seq<string>, t: HostTable, per: Num, P: nat): (r: seq<string>)
    requires Walkable(order, t) && Walkable(t.order, t) && Value(per) >= 0.0 && t.order != []
    ensures |r| == P
  {
    var primary := Primary(order, t, per, |order|);
    if |primary| >= P then primary[..P]
    else primary + Deal(Flatten(t.order, t), P - |primary|)
  }

  lemma {:induction false} PrimaryOnHosts(order: seq<string>, t: HostTable, per: Num, j: nat)
    requires Walkable(order, t) && Value(per) >= 0.0 && j <= |order|
    ensures forall x | x in Primary(order, t, per, j) :: OnHosts(x, t)
  {
    if j > 0 {
      PrimaryOnHosts(order, t, per, j - 1);
      DealMembers(t.memberIds[order[j - 1]], BlockSize(t, order[j - 1], per));
    }
  }

  lemma {:induction false} FlattenOnHosts(order: seq<string>, t: HostTable)
    requires Walkable(order, t)
    ensures forall x | x in Flatten(order, t) :: OnHosts(x, t)
  {
    if order != [] {
      FlattenOnHosts(order[..|order| - 1], t);
    }
  }

  /** Every position goes to a member the host table lists. */
  lemma OwnersOnHosts(order: seq<string>, t: HostTable, per: Num, P: nat)
    requires Walkable(order, t) && Walkable(t.order, t) && Value(per) >= 0.0 && t.order != []
    ensures forall x | x in Owners(order, t, per, P) :: OnHosts(x, t)
  {
    var primary := Primary(order, t, per, |order|);
    PrimaryOnHosts(order, t, per, |order|);
    if |primary| < P {
      var flat := Flatten(t.order, t);
      FlattenOnHosts(t.order, t);
      DealMembers(flat, P - |primary|);
    } else {
      assert forall x | x in primary[..P] :: x in primary;
    }
  }

  /** What one member was given: the partitions at the positions it owns, in position order. */
  function Received(tps: seq<TopicPartition>, owners: seq<string>, m: string): (r: seq<TopicPartition>)
    requires |owners| <= |tps|
  {
    if owners == [] then []
    else
      var n := |owners| - 1;
      Received(tps, owners[..n], m) + (if owners[n] == m then [tps[n]] else [])
  }

  /** One more position dealt: only its owner's list grows, by that position's partition. */
  lemma ReceivedStep(tps: seq<TopicPartition>, owners: seq<string>, x: string, m: string)
    requires |owners| < |tps|
    ensures Received(tps, owners + [x], m) == Received(tps, owners, m) + (if x == m then [tps[|owners|]] else [])
  {
    assert (owners + [x])[..|owners|] == owners;
  }

  /** The concatenation of what the members `ks` received. */
  function Collect(tps: seq<TopicPartition>, owners: seq<string>, ks: seq<string>): seq<TopicPartition>
    requires |owners| <= |tps|
  {
    if ks == [] then [] else Received(tps, owners, ks[0]) + Collect(tps, owners, ks[1..])
  }

  /** A member receives as many partitions as it owns positions. */
  lemma {:induction false} ReceivedCount(tps: seq<TopicPartition>, owners: seq<string>, m: string)
    requires |owners| <= |tps|
    ensures |Received(tps, owners, m)| == multiset(owners)[m]
  {
    if owners != [] {
      var n := |owners| - 1;
      assert owners == owners[..n] + [owners[n]];
      ReceivedCount(tps, owners[..n], m);
    }
  }

  lemma DistinctTail(ks: seq<string>)
    requires ks != [] && Distinct(ks)
    ensures Distinct(ks[1..]) && ks[0] !in ks[1..]
    ensures forall x :: x in ks <==> x == ks[0] || x in ks[1..]
  {
    assert ks == [ks[0]] + ks[1..];
    assert forall i | 0 <= i < |ks[1..]| :: ks[1..][i] == ks[i + 1];
  }

  lemma {:induction false} CollectStep(tps: seq<TopicPartition>, owners: seq<string>, x: string, ks: seq<string>)
    requires |owners| < |tps| && Distinct(ks)
    ensures multiset(Collect(tps, owners + [x], ks))
         == multiset(Collect(tps, owners, ks)) + (if x in ks then multiset{tps[|owners|]} else multiset{})
  {
    if ks != [] {
      var k0, rest := ks[0], ks[1..];
      ReceivedStep(tps, owners, x, k0);
      DistinctTail(ks);
      CollectStep(tps, owners, x, rest);
      assert Collect(tps, owners + [x], ks) == Received(tps, owners + [x], k0) + Collect(tps, owners + [x], rest);
      assert Collect(tps, owners, ks) == Received(tps, owners, k0) + Collect(tps, owners, rest);
    }
  }

  /**
   Every position's partition lands in exactly one member's list: over distinct members that
   include every owner, the lists together are the partitions dealt so far, with multiplicity.
   */
  lemma {:induction false} CollectComplete(tps: seq<TopicPartition>, owners: seq<string>, ks: seq<string>)
    requires |owners| <= |tps| && Distinct(ks)
    requires forall i | 0 <= i < |owners| :: owners[i] in ks
    ensures multiset(Collect(tps, owners, ks)) == multiset(tps[..|owners|])
    decreases |owners|
  {
    if owners == [] {
      CollectEmpty(tps, ks);
    } else {
      var n := |owners| - 1;
      var prefix := owners[..n];
      assert prefix + [owners[n]] == owners;
      CollectComplete(tps, prefix, ks);
      CollectSnoc(tps, prefix, owners[n], ks);
    }
  }

  lemma CollectSnoc(tps: seq<TopicPartition>, prefix: seq<string>, last: string, ks: seq<string>)
    requires |prefix| < |tps| && Distinct(ks) && last in ks
    requires multiset(Collect(tps, prefix, ks)) == multiset(tps[..|prefix|])
    ensures multiset(Collect(tps, prefix + [last], ks)) == multiset(tps[..|prefix| + 1])
  {
    var n := |prefix|;
    calc {
      multiset(Collect(tps, prefix + [last], ks));
    == { CollectStep(tps, prefix, last, ks); }
      multiset(Collect(tps, prefix, ks)) + multiset{tps[n]};
    ==
      multiset(tps[..n]) + multiset{tps[n]};
    == { assert tps[..n + 1] == tps[..n] + [tps[n]]; }
      multiset(tps[..n + 1]);
    }
  }

  lemma {:induction false} CollectEmpty(tps: seq<TopicPartition>, ks: seq<string>)
    ensures Collect(tps, [], ks) == []
  {
    if ks != [] {
      CollectEmpty(tps, ks[1..]);
    }
  }

  /** The blocks of the instances before `order[j]` end where `order[j]`'s block starts. */
  lemma {:induction false} PrimaryPrefix(order: seq<string>, t: HostTable, per: Num, i: nat, j: nat)
    requires Walkable(order, t) && Value(per) >= 0.0 && i <= j <= |order|
    ensures Primary(order, t, per, i) <= Primary(order, t, per, j)
    decreases j
  {
    if i < j {
      PrimaryPrefix(order, t, per, i, j - 1);
    }
  }

  /** The cursor never moves back: it only grows as instances are visited. */
  lemma CursorMonotone(order: seq<string>, t: HostTable, per: Num, i: nat, j: nat)
    requires Walkable(order, t) && Value(per) >= 0.0 && i <= j <= |order|
    ensures Cursor(order, t, per, i) <= Cursor(order, t, per, j)
  {
    PrimaryPrefix(order, t, per, i, j);
  }

  /**
   Primary pass: the `x`-th position of the block of `order[j]`, which starts at the cursor
   left by the instances before it, goes to that instance's member `x % member_ids.size`.
   */
  lemma PrimaryOwner(order: seq<string>, t: HostTable, per: Num, P: nat, j: nat, x: nat)
    requires Walkable(order, t) && Walkable(t.order, t) && Value(per) >= 0.0 && t.order != [] && j < |order|
    requires x < BlockSize(t, order[j], per) && Cursor(order, t, per, j) + x < P
    ensures Owners(order, t, per, P)[Cursor(order, t, per, j) + x]
         == t.memberIds[order[j]][x % |t.memberIds[order[j]]|]
  {
    var k := Cursor(order, t, per, j) + x;
    var ids := t.memberIds[order[j]];
    PrimaryPrefix(order, t, per, j + 1, |order|);
    DealAt(ids, BlockSize(t, order[j], per), x);
    assert Primary(order, t, per, j + 1)[k] == ids[x % |ids|];
    OwnersBelowCursor(order, t, per, P, k);
  }

  lemma TakeOfConcat<T>(a: seq<T>, b: seq<T>, k: nat)
    requires k <= |a| + |b|
    ensures |a| <= k ==> (a + b)[..k] == a + b[..k - |a|]
    ensures k <= |a| ==> (a + b)[..k] == a[..k]
  {
  }

  /**
   One instance of the primary pass with the cursor at or below `P`: what is dealt below `P`
   grows by the part of the block that `topic_partitions[last_index, n]` keeps.
   */
  lemma PrimaryStepBelow(order: seq<string>, t: HostTable, per: Num, P: nat, j: nat)
    requires Walkable(order, t) && Value(per) >= 0.0 && j < |order|
    requires Cursor(order, t, per, j) <= P
    ensures Cursor(order, t, per, j + 1) == Cursor(order, t, per, j) + BlockSize(t, order[j], per)
    ensures Primary(order, t, per, j)[..Min(Cursor(order, t, per, j), P)] == Primary(order, t, per, j)
    ensures Primary(order, t, per, j + 1)[..Min(Cursor(order, t, per, j + 1), P)]
         == Primary(order, t, per, j)
            + Deal(t.memberIds[order[j]], Min(Cursor(order, t, per, j + 1), P) - Cursor(order, t, per, j))
  {
    var c, n := Cursor(order, t, per, j), BlockSize(t, order[j], per);
    var ids := t.memberIds[order[j]];
    var hi := Min(c + n, P);
    assert Primary(order, t, per, j)[..c] == Primary(order, t, per, j);
    TakeOfConcat(Primary(order, t, per, j), Deal(ids, n), hi);
    DealPrefix(ids, hi - c, n);
  }

  /** Once the cursor is past `P`, the pass deals nothing more below `P` (the slice is nil). */
  lemma PrimaryStepAbove(order: seq<string>, t: HostTable, per: Num, P: nat, j: nat)
    requires Walkable(order, t) && Value(per) >= 0.0 && j < |order|
    requires Cursor(order, t, per, j) > P
    ensures Cursor(order, t, per, j + 1) == Cursor(order, t, per, j) + BlockSize(t, order[j], per)
    ensures Primary(order, t, per, j + 1)[..P] == Primary(order, t, per, j)[..P]
  {
    var ids := t.memberIds[order[j]];
    TakeOfConcat(Primary(order, t, per, j), Deal(ids, BlockSize(t, order[j], per)), P);
  }

  /** Below both the cursor and `P`, the owner is the one the primary pass chose. */
  lemma OwnersBelowCursor(order: seq<string>, t: HostTable, per: Num, P: nat, k: nat)
    requires Walkable(order, t) && Walkable(t.order, t) && Value(per) >= 0.0 && t.order != []
    requires k < P && k < Cursor(order, t, per, |order|)
    ensures Owners(order, t, per, P)[k] == Primary(order, t, per, |order|)[k]
  {
  }

  /**
   Overflow pass: the `x`-th position after the cursor goes to the member `x % size` of all
   members in first-seen instance order.
   */
  lemma OverflowOwner(order: seq<string>, t: HostTable, per: Num, P: nat, x: nat)
    requires Walkable(order, t) && Walkable(t.order, t) && Value(per) >= 0.0 && t.order != []
    requires Cursor(order, t, per, |order|) + x < P
    ensures Owners(order, t, per, P)[Cursor(order, t, per, |order|) + x]
         == Flatten(t.order, t)[x % |Flatten(t.order, t)|]
  {
    OwnersAboveCursor(order, t, per, P, x);
    DealAt(Flatten(t.order, t), P - Cursor(order, t, per, |order|), x);
  }

  /** Above the cursor, the owners are the overflow deal. */
  lemma OwnersAboveCursor(order: seq<string>, t: HostTable, per: Num, P: nat, x: nat)
    requires Walkable(order, t) && Walkable(t.order, t) && Value(per) >= 0.0 && t.order != []
    requires Cursor(order, t, per, |order|) + x < P
    ensures Owners(order, t, per, P)[Cursor(order, t, per, |order|) + x]
         == Deal(Flatten(t.order, t), P - Cursor(order, t, per, |order|))[x]
  {
  }
}
