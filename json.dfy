/**
 * JSON values as the validator and the table builder see them.
 *
 * An object keeps its members in insertion order (the order `Object.keys`
 * reports for non-integer keys).  Numbers are abstracted to whether they are
 * integral, which is all the validator observes of them.
 */
module Json {

  datatype Option<T> = None | Some(value: T)

  datatype Value =
    | Str(s: string)
    | Num(isInt: bool)
    | Bool(b: bool)
    | Null
    | Arr(items: seq<Value>)
    | Obj(members: seq<Member>)

  datatype Member = Member(key: string, value: Value)

  /** `members[key]`: the value of the first member named `key`. */
  function Lookup(members: seq<Member>, key: string): (r: Option<Value>)
    ensures r.None? <==> forall i :: 0 <= i < |members| ==> members[i].key != key
    ensures r.Some? ==> exists i :: 0 <= i < |members| && members[i] == Member(key, r.value)
  {
    if members == [] then None
    else if members[0].key == key then Some(members[0].value)
    else Lookup(members[1..], key)
  }

  /** `v[key]` for a non-null value: only objects have own members here. */
  function Get(v: Value, key: string): Option<Value>
  {
    if v.Obj? then Lookup(v.members, key) else None
  }

  /** JavaScript truthiness of a possibly undefined value. */
  predicate Truthy(v: Option<Value>)
  {
    match v
    case None => false
    case Some(x) =>
      match x
      case Str(s) => s != ""
      case Num(_) => true
      case Bool(b) => b
      case Null => false
      case Arr(_) => true
      case Obj(_) => true
  }

  /** The declared type of a node: a truthy string `@type`. */
  function TypeTag(v: Value): (r: Option<string>)
    ensures r.Some? ==> v.Obj? && r.value != "" && Get(v, "@type") == Some(Str(r.value))
    ensures Truthy(Get(v, "@type")) && Get(v, "@type").value.Str? ==> r == Some(Get(v, "@type").value.s)
  {
    match Get(v, "@type")
    case Some(Str(t)) => if t != "" then Some(t) else None
    case _ => None
  }

  function Keys(members: seq<Member>): (r: seq<string>)
    ensures |r| == |members|
    ensures forall i :: 0 <= i < |members| ==> r[i] == members[i].key
  {
    if members == [] then [] else [members[0].key] + Keys(members[1..])
  }

  lemma KeysAppend(members: seq<Member>, m: Member)
    ensures Keys(members + [m]) == Keys(members) + [m.key]
  {
  }
}
