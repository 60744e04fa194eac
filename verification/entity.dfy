/**
 * The entity package: the two compression schemes a save file can declare
 * and the record the decoder hands back.
 */
module Entity {
  import opened JavaInt
  import opened Wrappers

  /** `enum SaveType`: one zlib pass or two nested ones. */
  datatype SaveType = SingleZlib | DoubleZlib {
    /** `getValue()`: the constructor argument narrowed with `(byte)`. */
    function GetValue(): (value: JByte)
      ensures this == SingleZlib ==> value == 0x31
      ensures this == DoubleZlib ==> value == 0x32
    {
      match this
      case SingleZlib => ToByte(0x31)
      case DoubleZlib => ToByte(0x32)
    }
  }

  /** `SaveType.values()`: every constant, in declaration order. */
  function Values(): (types: seq<SaveType>)
    ensures SingleZlib in types && DoubleZlib in types
    ensures |types| == 2
  {
    [SingleZlib, DoubleZlib]
  }

  /**
   * The first type of `types` whose value is `value`, or `None` when no type
   * carries that value.
   */
  function Lookup(types: seq<SaveType>, value: JByte): (r: Option<SaveType>)
    ensures r.Some? ==>
              exists i :: 0 <= i < |types| && types[i] == r.value && types[i].GetValue() == value
                          && forall j :: 0 <= j < i ==> types[j].GetValue() != value
    ensures r.None? ==> forall i :: 0 <= i < |types| ==> types[i].GetValue() != value
  {
    if types == [] then None
    else if types[0].GetValue() == value then Some(types[0])
    else
      var rest := Lookup(types[1..], value);
      assert forall i :: 1 <= i < |types| ==> types[i] == types[1..][i - 1];
      rest
  }

  /** `fromValue(value)`: a linear search over `values()` that returns null when nothing matches. */
  method FromValue(value: JByte) returns (r: Option<SaveType>)
    ensures r == Lookup(Values(), value)
  {
    var types := Values();
    for i := 0 to |types|
      invariant Lookup(types, value) == Lookup(types[i..], value)
    {
      if types[i].GetValue() == value {
        return Some(types[i]);
      }
      assert types[i..][1..] == types[i + 1..];
    }
    return None;
  }

  /** 0x31 names single zlib, 0x32 double zlib, and every other byte nothing. */
  lemma LookupValues(value: JByte)
    ensures Lookup(Values(), value)
         == if value == 0x31 then Some(SingleZlib)
            else if value == 0x32 then Some(DoubleZlib)
            else None
  {
  }

  /** `fromValue(t.getValue())` is `t` for every constant. */
  lemma ValueRoundTrip(t: SaveType)
    ensures Lookup(Values(), t.GetValue()) == Some(t)
  {
  }

  /** No two constants share a byte value. */
  lemma GetValueInjective(s: SaveType, t: SaveType)
    ensures s.GetValue() == t.GetValue() ==> s == t
  {
  }

  /** Whatever `fromValue` finds is the only constant carrying that value. */
  lemma LookupUnique(value: JByte, t: SaveType)
    requires Lookup(Values(), value) == Some(t)
    ensures forall u: SaveType :: u.GetValue() == value <==> u == t
  {
  }

  /**
   * `record GvasObject`: the decompressed payload, the scheme it was stored
   * with, and the three marker bytes taken from the header's magic int.
   */
  datatype GvasObject = GvasObject(uncompressedData: seq<JByte>, saveType: SaveType, magicBytes: seq<JByte>)
}
