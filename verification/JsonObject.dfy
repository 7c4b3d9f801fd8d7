/** runtime/json.c: an object's parallel key and value arrays, grown by copying.

    `OrbitObject` has the two arrays and the count of the C struct; the capacity is the arrays' length.
    `Fields` reads the used part of both as one sequence, and the methods are proved to change it as
    `SetField` and to read it as `GetField` of module `Json` do: a repeated key overwrites in place and
    keeps its position, a new one is appended, and growing changes nothing that can be read.

    The parser builds its objects with this class.

    Keys are texts here; the runtime compares them with strcmp. */
module JsonObject {
  import opened Json

  function Zip(keys: seq<string>, values: seq<Value>): (fields: seq<Field>)
    requires |keys| == |values|
    ensures |fields| == |keys| && forall i | 0 <= i < |keys| :: fields[i] == Field(keys[i], values[i])
  {
    seq(|keys|, i requires 0 <= i < |keys| => Field(keys[i], values[i]))
  }

  class OrbitObject {
    var keys: array<string>
    var values: array<Value>
    var count: nat

    predicate Valid()
      reads this
    {
      count <= keys.Length == values.Length
    }

    function Fields(): seq<Field>
      requires Valid()
      reads this, keys, values
    {
      Zip(keys[..count], values[..count])
    }

    /** orbit_object_create. */
    constructor ()
      ensures Valid() && Fields() == [] && fresh(keys) && fresh(values)
    {
      keys := new string[0];
      values := new Value[0];
      count := 0;
    }

    /** The search both accessors run. */
    method Find(key: string) returns (i: nat)
      requires Valid()
      ensures i == KeyIndex(Fields(), key)
    {
      hide KeyIndex;
      i := 0;
      while i < count && keys[i] != key
        invariant i <= count && forall k | 0 <= k < i :: keys[k] != key
      {
        i := i + 1;
      }
      KeyIndexIs(Fields(), key, i);
    }

    /** orbit_object_get. */
    method Get(key: string) returns (v: Value)
      requires Valid()
      ensures v == GetField(Fields(), key)
    {
      var i := Find(key);
      v := if i < count then values[i] else Null;
    }

    /** Copies both arrays into twice the room, the first time into room for four. */
    method Grow()
      requires Valid() && count == keys.Length
      modifies this
      ensures Valid() && count == old(count) < keys.Length && Fields() == old(Fields())
      ensures fresh(keys) && fresh(values)
      ensures keys.Length == if old(keys.Length) == 0 then 4 else 2 * old(keys.Length)
    {
      var next := if keys.Length != 0 then keys.Length * 2 else 4;
      var nk, nv := new string[next], new Value[next];
      var i := 0;
      while i < count
        invariant i <= count <= next && nk[..i] == keys[..i] && nv[..i] == values[..i]
        modifies nk, nv
      {
        nk[i], nv[i] := keys[i], values[i];
        i := i + 1;
      }
      keys, values := nk, nv;
    }

    /** orbit_object_set. */
    method Set(key: string, v: Value)
      requires Valid()
      modifies this, keys, values
      ensures Valid() && Fields() == SetField(old(Fields()), key, v)
      ensures keys == old(keys) || fresh(keys)
      ensures values == old(values) || fresh(values)
    {
      hide KeyIndex;
      ghost var was := Fields();
      var i := Find(key);
      if i < count {
        values[i] := v;
        assert Fields() == was[i := Field(key, v)];
        return;
      }
      if count == keys.Length { Grow(); }
      keys[count] := key;
      values[count] := v;
      count := count + 1;
      assert Fields() == was + [Field(key, v)];
    }
  }
}
