/**
 * OSC message values as the recorder sees them: every value carries one of
 * extOSC's value types; only Int, Float and String can be captured.
 */
module Osc {
  import opened Bytes

  datatype Option<+T> = None | Some(value: T)

  /** The name of an extOSC value type other than Int, Float and String (Long, Double, Blob, ...). */
  type OtherName = s: string | s != "Int" && s != "Float" && s != "String" witness "Long"

  datatype Kind = Int | Float | String | Other(name: OtherName)

  datatype Value =
    | IntValue(i: int32)
    | FloatValue(bits: bits32)
    | StringValue(s: string)
    | OtherValue(kind: OtherName)

  /** A message is the ordered list of its values. */
  type Message = seq<Value>

  function KindOf(v: Value): Kind
  {
    match v
    case IntValue(_) => Int
    case FloatValue(_) => Float
    case StringValue(_) => String
    case OtherValue(k) => Other(k)
  }

  predicate Supported(k: Kind)
  {
    k.Int? || k.Float? || k.String?
  }

  predicate AllSupported(types: seq<Kind>)
  {
    forall i :: 0 <= i < |types| ==> Supported(types[i])
  }

  function KindsOf(vs: Message): (ks: seq<Kind>)
    ensures |ks| == |vs|
    ensures forall i :: 0 <= i < |vs| ==> ks[i] == KindOf(vs[i])
  {
    if vs == [] then [] else [KindOf(vs[0])] + KindsOf(vs[1..])
  }

  /** OSCValueType.ToString(): the line written to the type file for a kind. */
  function KindName(k: Kind): string
  {
    match k
    case Int => "Int"
    case Float => "Float"
    case String => "String"
    case Other(n) => n
  }

  function KindNames(types: seq<Kind>): (lines: seq<string>)
    ensures |lines| == |types|
  {
    if types == [] then [] else [KindName(types[0])] + KindNames(types[1..])
  }

  /** Line i of the type file names kind i of the schema. */
  lemma {:induction false} KindNamesAt(types: seq<Kind>, i: nat)
    requires i < |types|
    ensures KindNames(types)[i] == KindName(types[i])
  {
    if i > 0 {
      KindNamesAt(types[1..], i - 1);
    }
  }

  /** A type-file line the player accepts: exactly the name of a capturable kind. */
  function ParseKind(line: string): (r: Option<Kind>)
    ensures r.Some? ==> Supported(r.value) && KindName(r.value) == line
  {
    if line == "Int" then Some(Int)
    else if line == "Float" then Some(Float)
    else if line == "String" then Some(String)
    else None
  }

  /** The type file round-trips exactly for the capturable kinds and rejects every other. */
  lemma ParseKindName(k: Kind)
    ensures ParseKind(KindName(k)) == (if Supported(k) then Some(k) else None)
  {
  }
}
