/**
 The weight resolver (`calculate_capacity`): a member's capacity from its instance type and
 availability zone, looked up in three weight tables that the strategy was configured with.
 A table given as a proc is modelled by the hash that the proc returns on this call.
 */
module Capacity {
  import opened Wrappers
  import opened Numeric
  import UserData

  /** `Hash{String => Numeric}`: instance family or availability zone to weight. */
  type WeightTable = map<string, Num>

  /** `Hash{String => Hash{String => Numeric}}`: keyed zone-then-family or family-then-zone. */
  type NestedWeightTable = map<string, map<string, Num>>

  /** The three tables of one strategy, as evaluated for one call of `assign`. */
  datatype Config = Config(
    instanceFamilyWeights: WeightTable,
    availabilityZoneWeights: WeightTable,
    weights: NestedWeightTable)

  /** Weights are never negative (a zero weight starves the member, which is allowed). */
  predicate NonNegativeWeights(familyWeights: WeightTable, azWeights: WeightTable, weights: NestedWeightTable)
  {
    && (forall k | k in familyWeights :: Value(familyWeights[k]) >= 0.0)
    && (forall k | k in azWeights :: Value(azWeights[k]) >= 0.0)
    && (forall k, k' | k in weights && k' in weights[k] :: Value(weights[k][k']) >= 0.0)
  }

  predicate PositiveWeights(familyWeights: WeightTable, azWeights: WeightTable, weights: NestedWeightTable)
  {
    && (forall k | k in familyWeights :: Value(familyWeights[k]) > 0.0)
    && (forall k | k in azWeights :: Value(azWeights[k]) > 0.0)
    && (forall k, k' | k in weights && k' in weights[k] :: Value(weights[k][k']) > 0.0)
  }

  predicate ValidConfig(config: Config)
  {
    NonNegativeWeights(config.instanceFamilyWeights, config.availabilityZoneWeights, config.weights)
  }

  /** `table.fetch(key, default)`; a nil key is never present in a table of strings. */
  function Fetch(table: WeightTable, key: Option<string>, default: Num): Num
  {
    if key.Some? && key.value in table then table[key.value] else default
  }

  /** `weights.dig(outer, inner)`: None when either level is missing. */
  function Dig(weights: NestedWeightTable, outer: Option<string>, inner: Option<string>): Option<Num>
  {
    if outer.Some? && inner.Some? && outer.value in weights && inner.value in weights[outer.value]
    then Some(weights[outer.value][inner.value])
    else None
  }

  /**
   `calculate_capacity`: the zone-then-family entry of `weights` if there is one, else the
   family-then-zone entry, else the family weight times the zone weight, each defaulting to
   the Integer 1.
   */
  function CalculateCapacity(instanceType: string, az: Option<string>,
                             familyWeights: WeightTable, azWeights: WeightTable,
                             weights: NestedWeightTable): (r: Num)
    ensures NonNegativeWeights(familyWeights, azWeights, weights) ==> Value(r) >= 0.0
    ensures PositiveWeights(familyWeights, azWeights, weights) ==> Value(r) > 0.0
    ensures familyWeights == map[] && azWeights == map[] && weights == map[] ==> r == Int(1)
  {
    var family := UserData.Family(instanceType);
    match Dig(weights, az, family)
    case Some(capacity) => capacity
    case None =>
      match Dig(weights, family, az)
      case Some(capacity) => capacity
      case None => Mul(Fetch(familyWeights, family, Int(1)), Fetch(azWeights, az, Int(1)))
  }

  /** The other orientation of a nested table: `Transpose(w)[b][a] == w[a][b]`. */
  function Transpose(weights: NestedWeightTable): (t: NestedWeightTable)
    ensures forall a, b | a in weights && b in weights[a] :: b in t && a in t[b] && t[b][a] == weights[a][b]
    ensures forall b, a | b in t && a in t[b] :: a in weights && b in weights[a]
  {
    var inner := set a, b | a in weights && b in weights[a] :: b;
    map b | b in inner :: map a | a in weights && b in weights[a] :: weights[a][b]
  }

  /** Digging the transposed table with the keys swapped finds the same entry, or none. */
  lemma DigTranspose(weights: NestedWeightTable, a: Option<string>, b: Option<string>)
    ensures Dig(Transpose(weights), b, a) == Dig(weights, a, b)
  {
  }

  /** No key of the outer level is also a key of the inner level (zones and families differ). */
  predicate SeparateKeys(weights: NestedWeightTable)
  {
    forall a, b | a in weights && b in weights[a] :: b !in weights
  }

  lemma TransposeNonNegative(familyWeights: WeightTable, azWeights: WeightTable, weights: NestedWeightTable)
    requires NonNegativeWeights(familyWeights, azWeights, weights)
    ensures NonNegativeWeights(familyWeights, azWeights, Transpose(weights))
  {
  }

  /**
   Writing `weights` keyed by zone first or by family first gives every member the same
   capacity, as long as no zone is named like a family.
   */
  lemma {:induction false} CapacityOrientationInvariant(instanceType: string, az: Option<string>,
                                      familyWeights: WeightTable, azWeights: WeightTable,
                                      weights: NestedWeightTable)
    requires SeparateKeys(weights)
    ensures CalculateCapacity(instanceType, az, familyWeights, azWeights, weights)
         == CalculateCapacity(instanceType, az, familyWeights, azWeights, Transpose(weights))
  {
    var family := UserData.Family(instanceType);
    var t := Transpose(weights);
    match Dig(weights, az, family)
    case Some(c) =>
      assert az.value !in t;
      DigTranspose(weights, az, family);
    case None =>
      DigTranspose(weights, family, az);
      DigTranspose(weights, az, family);
  }
}
