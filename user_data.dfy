/**
 The member metadata wire format: "<prefix>|<instance id>,<instance type>,<availability zone>".
 Decoding follows Ruby's String#split with a one-character separator: the string is cut at
 every separator and trailing empty fields are dropped ("".split(",") is []).
 */
module UserData {
  import opened Wrappers

  /** The position of the first `sep` in `s`. */
  function IndexOf(s: string, sep: char): (k: nat)
    requires sep in s
    ensures k < |s| && s[k] == sep && sep !in s[..k]
  {
    if s[0] == sep then 0 else 1 + IndexOf(s[1..], sep)
  }

  /** Fields joined by the separator: the inverse of SplitAll. */
  function Join(fields: seq<string>, sep: char): string
    requires |fields| >= 1
  {
    if |fields| == 1 then fields[0] else fields[0] + [sep] + Join(fields[1..], sep)
  }

  /** Every field between separators, empty ones included. */
  function SplitAll(s: string, sep: char): (fields: seq<string>)
    ensures |fields| >= 1
    ensures forall f | f in fields :: sep !in f
    ensures Join(fields, sep) == s
    decreases |s|
  {
    if sep !in s then [s]
    else
      var k := IndexOf(s, sep);
      assert s == s[..k] + [sep] + s[k + 1..];
      [s[..k]] + SplitAll(s[k + 1..], sep)
  }

  /** Ruby's `s.split(sep)`: SplitAll without its trailing empty fields. */
  function DropTrailingEmpty(fields: seq<string>): (r: seq<string>)
    ensures r <= fields
    ensures r != [] ==> r[|r| - 1] != ""
    ensures forall k | |r| <= k < |fields| :: fields[k] == ""
  {
    if fields == [] then []
    else if fields[|fields| - 1] == "" then DropTrailingEmpty(fields[..|fields| - 1])
    else fields
  }

  function RubySplit(s: string, sep: char): (fields: seq<string>)
    ensures fields <= SplitAll(s, sep)
    ensures forall f | f in fields :: sep !in f
    ensures fields != [] ==> fields[|fields| - 1] != ""
    ensures forall k | |fields| <= k < |SplitAll(s, sep)| :: SplitAll(s, sep)[k] == ""
  {
    DropTrailingEmpty(SplitAll(s, sep))
  }

  /** Every field is empty exactly when the string is nothing but separators. */
  lemma {:induction false} OnlySeparators(s: string, sep: char)
    ensures (forall f | f in SplitAll(s, sep) :: f == "") <==> (forall i | 0 <= i < |s| :: s[i] == sep)
    decreases |s|
  {
    if sep in s {
      var k := IndexOf(s, sep);
      var rest := s[k + 1..];
      assert SplitAll(s, sep) == [s[..k]] + SplitAll(rest, sep);
      OnlySeparators(rest, sep);
      if forall i | 0 <= i < |s| :: s[i] == sep {
        assert k == 0 by { assert s[0] == sep; }
        assert forall i | 0 <= i < |rest| :: rest[i] == s[k + 1 + i];
      }
      if forall f | f in SplitAll(s, sep) :: f == "" {
        assert s[..k] in SplitAll(s, sep);
        assert forall f | f in SplitAll(rest, sep) :: f in SplitAll(s, sep);
        assert k == 0;
        assert forall i | 1 <= i < |s| :: s[i] == rest[i - 1];
      }
    } else {
      assert SplitAll(s, sep) == [s];
      assert s in SplitAll(s, sep);
      if s != [] {
        assert s[0] in s && s[0] != sep;
      }
    }
  }

  /** The first separator of `a + [sep] + b` is the one after `a` when `a` has none. */
  lemma {:induction false} IndexOfAfter(a: string, sep: char, b: string)
    requires sep !in a
    ensures sep in a + [sep] + b && IndexOf(a + [sep] + b, sep) == |a|
    decreases |a|
  {
    var s := a + [sep] + b;
    assert s[|a|] == sep;
    if a != [] {
      assert s[0] == a[0];
      assert s[1..] == a[1..] + [sep] + b;
      IndexOfAfter(a[1..], sep, b);
    }
  }

  lemma {:induction false} SplitJoin(fields: seq<string>, sep: char)
    requires |fields| >= 1
    requires forall f | f in fields :: sep !in f
    ensures SplitAll(Join(fields, sep), sep) == fields
    decreases |fields|
  {
    if |fields| > 1 {
      var head, rest := fields[0], Join(fields[1..], sep);
      var s := Join(fields, sep);
      assert s == head + [sep] + rest;
      assert sep !in head by { assert head in fields; }
      IndexOfAfter(head, sep, rest);
      assert s[..|head|] == head;
      assert s[|head| + 1..] == rest;
      assert SplitAll(s, sep) == [head] + SplitAll(rest, sep);
      SplitJoin(fields[1..], sep);
      assert fields == [head] + fields[1..];
    } else {
      assert sep !in fields[0];
    }
  }

  /** The three fields a member announces, as the strategy reads them back. */
  datatype InstanceInfo = InstanceInfo(instanceId: string, instanceType: string, availabilityZone: Option<string>)

  /**
   `instance_id, instance_type, az = metadata.split(",")`. With fewer than two fields the
   instance type is nil and the strategy fails later on `nil.split`, so that case is None;
   a missing third field only leaves the zone nil.
   */
  function Decode(metadata: string): (r: Option<InstanceInfo>)
    ensures r.None? <==> |RubySplit(metadata, ',')| < 2
    ensures r.Some? ==> ',' !in r.value.instanceId && ',' !in r.value.instanceType
    ensures r.Some? && r.value.availabilityZone.Some? ==> ',' !in r.value.availabilityZone.value
  {
    var fields := RubySplit(metadata, ',');
    if |fields| < 2 then None
    else Some(InstanceInfo(fields[0], fields[1], if |fields| >= 3 then Some(fields[2]) else None))
  }

  /** The user data a member sends when it joins: `"|#{instance_id},#{instance_type},#{az}"`. */
  function Encode(instanceId: string, instanceType: string, availabilityZone: string): string
  {
    "|" + instanceId + "," + instanceType + "," + availabilityZone
  }

  /** Three comma-free fields, the last non-empty, decode to themselves. */
  lemma DecodeFields(instanceId: string, instanceType: string, availabilityZone: string)
    requires ',' !in instanceId && ',' !in instanceType && ',' !in availabilityZone
    requires availabilityZone != ""
    ensures Decode(instanceId + "," + instanceType + "," + availabilityZone)
            == Some(InstanceInfo(instanceId, instanceType, Some(availabilityZone)))
  {
    var fields := [instanceId, instanceType, availabilityZone];
    assert Join(fields, ',') == instanceId + "," + instanceType + "," + availabilityZone by {
      assert Join(fields[2..], ',') == availabilityZone;
      assert fields[1..][1..] == fields[2..];
    }
    SplitJoin(fields, ',');
  }

  /**
   Decoding what a member encoded gives its fields back when whatever precedes the user data
   (the protocol's own bytes) holds no comma: that prefix stays glued to the instance id,
   which is only ever used as a grouping key.
   */
  lemma DecodeEncode(prefix: string, instanceId: string, instanceType: string, availabilityZone: string)
    requires ',' !in prefix && ',' !in instanceId && ',' !in instanceType && ',' !in availabilityZone
    requires availabilityZone != ""
    ensures Decode(prefix + Encode(instanceId, instanceType, availabilityZone))
            == Some(InstanceInfo(prefix + "|" + instanceId, instanceType, Some(availabilityZone)))
  {
    var glued := prefix + "|" + instanceId;
    assert forall c | c in glued :: c in prefix || c == '|' || c in instanceId;
    assert prefix + Encode(instanceId, instanceType, availabilityZone)
        == glued + "," + instanceType + "," + availabilityZone;
    DecodeFields(glued, instanceType, availabilityZone);
  }

  /**
   The protocol bytes before the user data hold length fields, and a length of 44 is the byte
   of a comma. Then every field shifts by one: the protocol bytes become the instance id, the
   user data's own instance id the instance type, and the instance type the zone.
   */
  lemma DecodeAfterComma(prefix: string, instanceId: string, instanceType: string, availabilityZone: string)
    requires ',' !in prefix && ',' !in instanceId && ',' !in instanceType && ',' !in availabilityZone
    requires availabilityZone != ""
    ensures Decode(prefix + "," + Encode(instanceId, instanceType, availabilityZone))
            == Some(InstanceInfo(prefix, "|" + instanceId, Some(instanceType)))
  {
    var fields := [prefix, "|" + instanceId, instanceType, availabilityZone];
    assert Join(fields, ',') == prefix + "," + Encode(instanceId, instanceType, availabilityZone) by {
      assert Join(fields[3..], ',') == availabilityZone;
      assert fields[2..][1..] == fields[3..];
      assert Join(fields[2..], ',') == instanceType + "," + availabilityZone;
      assert fields[1..][1..] == fields[2..];
      assert Join(fields[1..], ',') == Encode(instanceId, instanceType, availabilityZone);
    }
    assert forall c | c in "|" + instanceId :: c == '|' || c in instanceId;
    SplitJoin(fields, ',');
  }

  /** The instance family: `instance_type.split(".")` first field, nil when there is none. */
  function Family(instanceType: string): (r: Option<string>)
    ensures r.Some? ==> '.' !in r.value && r.value <= instanceType
    ensures r.Some? && |r.value| < |instanceType| ==> instanceType[|r.value|] == '.'
    ensures r.None? <==> forall i | 0 <= i < |instanceType| :: instanceType[i] == '.'
  {
    var parts := RubySplit(instanceType, '.');
    FirstFieldIsPrefix(instanceType, '.');
    OnlySeparators(instanceType, '.');
    if parts == [] then None
    else
      assert parts[|parts| - 1] in SplitAll(instanceType, '.');
      Some(parts[0])
  }

  lemma FirstFieldIsPrefix(s: string, sep: char)
    ensures SplitAll(s, sep)[0] <= s
    ensures |SplitAll(s, sep)[0]| < |s| ==> s[|SplitAll(s, sep)[0]|] == sep
  {
    if sep in s {
      var k := IndexOf(s, sep);
      assert SplitAll(s, sep)[0] == s[..k];
    }
  }

  /** "c5.xlarge" belongs to the family "c5". */
  lemma FamilyOfInstanceType(family: string, size: string)
    requires '.' !in family && family != ""
    ensures Family(family + "." + size) == Some(family)
  {
    var t := family + "." + size;
    IndexOfAfter(family, '.', size);
    assert SplitAll(t, '.')[0] == family;
  }
}
