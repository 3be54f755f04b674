/**
 * Recursive validation of a JSON-LD node against the ontology (`validate`).
 *
 * `Violations` is the specification: the list of findings, in the order the
 * validator reports them.  `Validate` is the validator's loop over keys and
 * array positions, proved to produce exactly that list.  `Conforms` is an
 * independent, declarative description of a node with nothing to report.
 */
module Validator {
  import opened Json
  import opened Hierarchy
  import opened Patterns
  import opened ValueTypes

  datatype Kind =
    | MissingType
    | UnknownType(typeName: string)
    | NotAllowed(property: string, typeName: string)
    | Mismatch(property: string, expected: seq<string>, actual: string)

  /** One reported problem: where it is and what it is. */
  datatype Violation = Violation(path: string, kind: Kind)

  /** Keys that are never checked against the ontology. */
  predicate Reserved(key: string)
  {
    key == "@type" || key == "@context"
  }

  // ---------------------------------------------------------------------
  // Decimal rendering of array positions in paths
  // ---------------------------------------------------------------------

  function DigitChar(d: nat): char
    requires d < 10
  {
    "0123456789"[d]
  }

  /** `String(i)` for a non-negative integer. */
  function NatToString(n: nat): (r: string)
    ensures r != [] && AllDigits(r)
    decreases n
  {
    if n < 10 then [DigitChar(n)] else NatToString(n / 10) + [DigitChar(n % 10)]
  }

  /** Reading a decimal string back. */
  function DecimalValue(s: string): nat
    requires AllDigits(s)
  {
    if s == [] then 0 else DecimalValue(s[..|s| - 1]) * 10 + (s[|s| - 1] as int - '0' as int)
  }

  lemma {:induction false} NatToStringRoundTrip(n: nat)
    ensures DecimalValue(NatToString(n)) == n
    decreases n
  {
    if n >= 10 {
      NatToStringRoundTrip(n / 10);
      var s := NatToString(n);
      assert s[..|s| - 1] == NatToString(n / 10);
    }
  }

  /** Distinct positions get distinct paths. */
  lemma NatToStringInjective(m: nat, n: nat)
    ensures NatToString(m) == NatToString(n) ==> m == n
  {
    NatToStringRoundTrip(m);
    NatToStringRoundTrip(n);
  }

  /** Path of position `i` of the array under `prop`. */
  function ItemPath(prefix: string, prop: string, i: nat): string
  {
    prefix + prop + "[" + NatToString(i) + "]"
  }

  // ---------------------------------------------------------------------
  // Specification of the report
  // ---------------------------------------------------------------------

  /**
   * The report for node `v` at `prefix`: a node without a type and a node
   * whose type declares no properties give a single finding; otherwise the
   * findings of its members, in member order.
   */
  function Violations(o: Ontology, v: Value, prefix: string): seq<Violation>
    requires Acyclic(o.subclassMap)
    decreases v, 0
  {
    match TypeTag(v)
    case None => [Violation(prefix, MissingType)]
    case Some(t) =>
      var allowed := AllowedProps(o, t);
      if |allowed| == 0 then [Violation(prefix, UnknownType(t))]
      else MembersViolations(o, t, allowed, v.members, prefix)
  }

  function MembersViolations(o: Ontology, t: string, allowed: PropertyMap, members: seq<Member>, prefix: string): seq<Violation>
    requires Acyclic(o.subclassMap)
    decreases members, 0
  {
    if members == [] then [] else
      MembersViolations(o, t, allowed, members[..|members| - 1], prefix)
      + MemberViolations(o, t, allowed, members[|members| - 1], prefix)
  }

  function MemberViolations(o: Ontology, t: string, allowed: PropertyMap, m: Member, prefix: string): seq<Violation>
    requires Acyclic(o.subclassMap)
    decreases m, 0
  {
    if Reserved(m.key) then []
    else if m.key !in allowed then [Violation(prefix + m.key, NotAllowed(m.key, t))]
    else match m.value
      case Arr(items) => ItemsViolations(o, m.key, allowed[m.key], items, prefix)
      case _ => PositionViolations(o, m.key, allowed[m.key], m.value, prefix + m.key)
  }

  function ItemsViolations(o: Ontology, prop: string, expected: seq<string>, items: seq<Value>, prefix: string): seq<Violation>
    requires Acyclic(o.subclassMap)
    decreases items, 0
  {
    if items == [] then [] else
      ItemsViolations(o, prop, expected, items[..|items| - 1], prefix)
      + PositionViolations(o, prop, expected, items[|items| - 1], ItemPath(prefix, prop, |items| - 1))
  }

  /** One value in property position: its guessed type, then the node itself if it is typed. */
  function PositionViolations(o: Ontology, prop: string, expected: seq<string>, x: Value, path: string): seq<Violation>
    requires Acyclic(o.subclassMap)
    decreases x, 1
  {
    var actual := GuessValueType(x);
    (if IsTypeOrSubtype(o.subclassMap, actual, expected) then [] else [Violation(path, Mismatch(prop, expected, actual))])
      + (if TypeTag(x).Some? then Violations(o, x, path + ".") else [])
  }

  // ---------------------------------------------------------------------
  // The validator
  // ---------------------------------------------------------------------

  method Validate(o: Ontology, v: Value, prefix: string) returns (errs: seq<Violation>)
    requires Acyclic(o.subclassMap)
    requires !v.Null?
    ensures errs == Violations(o, v, prefix)
    decreases v, 0
  {
    var tag := TypeTag(v);
    if tag.None? {
      return [Violation(prefix, MissingType)];
    }
    var t := tag.value;
    var supers := GetAllSuperClasses(o.subclassMap, t);
    var allowed := Assign(o.typeMap, [t] + supers);
    if |allowed| == 0 {
      return [Violation(prefix, UnknownType(t))];
    }
    var members := v.members;
    errs := [];
    for j := 0 to |members|
      invariant errs == MembersViolations(o, t, allowed, members[..j], prefix)
    {
      assert members[..j + 1][..j] == members[..j];
      var found := CheckMember(o, t, allowed, members[j], prefix);
      errs := errs + found;
    }
    assert members[..|members|] == members;
  }

  /** The body of the loop over the keys of a typed node. */
  method CheckMember(o: Ontology, t: string, allowed: PropertyMap, m: Member, prefix: string) returns (found: seq<Violation>)
    requires Acyclic(o.subclassMap)
    ensures found == MemberViolations(o, t, allowed, m, prefix)
    decreases m, 0
  {
    if Reserved(m.key) {
      return [];
    }
    if m.key !in allowed {
      return [Violation(prefix + m.key, NotAllowed(m.key, t))];
    }
    var expected := allowed[m.key];
    if m.value.Arr? {
      var items := m.value.items;
      assert MemberViolations(o, t, allowed, m, prefix) == ItemsViolations(o, m.key, expected, items, prefix);
      found := [];
      for i := 0 to |items|
        invariant found == ItemsViolations(o, m.key, expected, items[..i], prefix)
      {
        assert items[..i + 1][..i] == items[..i];
        var here := CheckPosition(o, m.key, expected, items[i], ItemPath(prefix, m.key, i));
        assert ItemsViolations(o, m.key, expected, items[..i + 1], prefix)
          == ItemsViolations(o, m.key, expected, items[..i], prefix) + here;
        found := found + here;
      }
      assert items[..|items|] == items;
    } else {
      found := CheckPosition(o, m.key, expected, m.value, prefix + m.key);
    }
  }

  /** Type check of one value in property position, then recursion into it when it is a typed node. */
  method CheckPosition(o: Ontology, prop: string, expected: seq<string>, x: Value, path: string) returns (found: seq<Violation>)
    requires Acyclic(o.subclassMap)
    ensures found == PositionViolations(o, prop, expected, x, path)
    decreases x, 1
  {
    var actual := GuessValueType(x);
    found := [];
    if !IsTypeOrSubtype(o.subclassMap, actual, expected) {
      found := [Violation(path, Mismatch(prop, expected, actual))];
    }
    if TypeTag(x).Some? {
      var nested := Validate(o, x, path + ".");
      found := found + nested;
    }
  }

  // ---------------------------------------------------------------------
  // Nothing to report
  // ---------------------------------------------------------------------

  /**
   * A node conforms when it is typed, its type is known, and every
   * non-reserved member is allowed and holds values of a compatible type
   * (every element, for an array), each typed one conforming in turn.
   */
  ghost predicate Conforms(o: Ontology, v: Value)
    requires Acyclic(o.subclassMap)
    decreases v, 0
  {
    && TypeTag(v).Some?
    && |AllowedProps(o, TypeTag(v).value)| > 0
    && forall m :: m in v.members ==> MemberConforms(o, AllowedProps(o, TypeTag(v).value), m)
  }

  ghost predicate MemberConforms(o: Ontology, allowed: PropertyMap, m: Member)
    requires Acyclic(o.subclassMap)
    decreases m, 2
  {
    !Reserved(m.key) ==>
      && m.key in allowed
      && (if m.value.Arr?
          then forall y :: y in m.value.items ==> PositionConforms(o, allowed[m.key], y)
          else PositionConforms(o, allowed[m.key], m.value))
  }

  ghost predicate PositionConforms(o: Ontology, expected: seq<string>, y: Value)
    requires Acyclic(o.subclassMap)
    decreases y, 1
  {
    && IsTypeOrSubtype(o.subclassMap, GuessValueType(y), expected)
    && (TypeTag(y).Some? ==> Conforms(o, y))
  }

  lemma {:induction false} ViolationsEmptyIff(o: Ontology, v: Value, prefix: string)
    requires Acyclic(o.subclassMap)
    ensures Violations(o, v, prefix) == [] <==> Conforms(o, v)
    decreases v, 0
  {
    if TypeTag(v).Some? && |AllowedProps(o, TypeTag(v).value)| > 0 {
      var t := TypeTag(v).value;
      MembersViolationsEmptyIff(o, t, AllowedProps(o, t), v.members, prefix);
    }
  }

  lemma {:induction false} MembersViolationsEmptyIff(o: Ontology, t: string, allowed: PropertyMap, members: seq<Member>, prefix: string)
    requires Acyclic(o.subclassMap)
    ensures MembersViolations(o, t, allowed, members, prefix) == [] <==>
      forall m :: m in members ==> MemberConforms(o, allowed, m)
    decreases members, 0
  {
    if members != [] {
      var init, last := members[..|members| - 1], members[|members| - 1];
      MembersViolationsEmptyIff(o, t, allowed, init, prefix);
      MemberViolationsEmptyIff(o, t, allowed, last, prefix);
      assert members == init + [last];
    }
  }

  lemma {:induction false} MemberViolationsEmptyIff(o: Ontology, t: string, allowed: PropertyMap, m: Member, prefix: string)
    requires Acyclic(o.subclassMap)
    ensures MemberViolations(o, t, allowed, m, prefix) == [] <==> MemberConforms(o, allowed, m)
    decreases m, 0
  {
    if !Reserved(m.key) && m.key in allowed {
      if m.value.Arr? {
        ItemsViolationsEmptyIff(o, m.key, allowed[m.key], m.value.items, prefix);
      } else {
        PositionViolationsEmptyIff(o, m.key, allowed[m.key], m.value, prefix + m.key);
      }
    }
  }

  lemma {:induction false} ItemsViolationsEmptyIff(o: Ontology, prop: string, expected: seq<string>, items: seq<Value>, prefix: string)
    requires Acyclic(o.subclassMap)
    ensures ItemsViolations(o, prop, expected, items, prefix) == [] <==>
      forall y :: y in items ==> PositionConforms(o, expected, y)
    decreases items, 0
  {
    if items != [] {
      var init, last := items[..|items| - 1], items[|items| - 1];
      ItemsViolationsEmptyIff(o, prop, expected, init, prefix);
      PositionViolationsEmptyIff(o, prop, expected, last, ItemPath(prefix, prop, |items| - 1));
      ItemsViolationsSplit(o, prop, expected, items, prefix);
      ItemsConformSplit(o, expected, items);
    }
  }

  /** Every position of a non-empty array conforms exactly when those of its front and its last one do. */
  lemma ItemsConformSplit(o: Ontology, expected: seq<string>, items: seq<Value>)
    requires Acyclic(o.subclassMap)
    requires items != []
    ensures (forall y :: y in items ==> PositionConforms(o, expected, y)) <==>
      && (forall y :: y in items[..|items| - 1] ==> PositionConforms(o, expected, y))
      && PositionConforms(o, expected, items[|items| - 1])
  {
    assert items == items[..|items| - 1] + [items[|items| - 1]];
  }

  /** The findings of a non-empty array are empty exactly when those of its front and of its last position are. */
  lemma ItemsViolationsSplit(o: Ontology, prop: string, expected: seq<string>, items: seq<Value>, prefix: string)
    requires Acyclic(o.subclassMap)
    requires items != []
    ensures ItemsViolations(o, prop, expected, items, prefix) == [] <==>
      && ItemsViolations(o, prop, expected, items[..|items| - 1], prefix) == []
      && PositionViolations(o, prop, expected, items[|items| - 1], ItemPath(prefix, prop, |items| - 1)) == []
  {
    var a := ItemsViolations(o, prop, expected, items[..|items| - 1], prefix);
    var b := PositionViolations(o, prop, expected, items[|items| - 1], ItemPath(prefix, prop, |items| - 1));
    assert ItemsViolations(o, prop, expected, items, prefix) == a + b;
    assert a + b == [] <==> a == [] && b == [];
  }

  lemma {:induction false} PositionViolationsEmptyIff(o: Ontology, prop: string, expected: seq<string>, x: Value, path: string)
    requires Acyclic(o.subclassMap)
    ensures PositionViolations(o, prop, expected, x, path) == [] <==> PositionConforms(o, expected, x)
    decreases x, 1
  {
    if TypeTag(x).Some? {
      ViolationsEmptyIff(o, x, path + ".");
    }
  }

  // ---------------------------------------------------------------------
  // Where findings are reported
  // ---------------------------------------------------------------------

  /** Every path in the report of a node extends the node's own prefix. */
  lemma {:induction false} ViolationsUnderPrefix(o: Ontology, v: Value, prefix: string)
    requires Acyclic(o.subclassMap)
    ensures forall x :: x in Violations(o, v, prefix) ==> prefix <= x.path
    decreases v, 0
  {
    if TypeTag(v).Some? && |AllowedProps(o, TypeTag(v).value)| > 0 {
      var t := TypeTag(v).value;
      MembersViolationsUnderPrefix(o, t, AllowedProps(o, t), v.members, prefix);
    }
  }

  lemma {:induction false} MembersViolationsUnderPrefix(o: Ontology, t: string, allowed: PropertyMap, members: seq<Member>, prefix: string)
    requires Acyclic(o.subclassMap)
    ensures forall x :: x in MembersViolations(o, t, allowed, members, prefix) ==> prefix <= x.path
    decreases members, 0
  {
    if members != [] {
      MembersViolationsUnderPrefix(o, t, allowed, members[..|members| - 1], prefix);
      MemberViolationsUnderPrefix(o, t, allowed, members[|members| - 1], prefix);
    }
  }

  lemma {:induction false} MemberViolationsUnderPrefix(o: Ontology, t: string, allowed: PropertyMap, m: Member, prefix: string)
    requires Acyclic(o.subclassMap)
    ensures forall x :: x in MemberViolations(o, t, allowed, m, prefix) ==> prefix <= x.path
    decreases m, 0
  {
    if !Reserved(m.key) {
      assert prefix <= prefix + m.key;
      if m.key in allowed {
        if m.value.Arr? {
          ItemsViolationsUnderPrefix(o, m.key, allowed[m.key], m.value.items, prefix);
        } else {
          PositionViolationsUnderPath(o, m.key, allowed[m.key], m.value, prefix + m.key);
        }
      }
    }
  }

  lemma {:induction false} ItemsViolationsUnderPrefix(o: Ontology, prop: string, expected: seq<string>, items: seq<Value>, prefix: string)
    requires Acyclic(o.subclassMap)
    ensures forall x :: x in ItemsViolations(o, prop, expected, items, prefix) ==> prefix <= x.path
    decreases items, 0
  {
    if items != [] {
      var path := ItemPath(prefix, prop, |items| - 1);
      ItemsViolationsUnderPrefix(o, prop, expected, items[..|items| - 1], prefix);
      PositionViolationsUnderPath(o, prop, expected, items[|items| - 1], path);
      assert path == prefix + (prop + "[" + NatToString(|items| - 1) + "]");
    }
  }

  lemma {:induction false} PositionViolationsUnderPath(o: Ontology, prop: string, expected: seq<string>, x: Value, path: string)
    requires Acyclic(o.subclassMap)
    ensures forall e :: e in PositionViolations(o, prop, expected, x, path) ==> path <= e.path
    decreases x, 1
  {
    if TypeTag(x).Some? {
      ViolationsUnderPrefix(o, x, path + ".");
      assert path <= path + ".";
    }
  }

  /** The findings for any one member of a typed node of known type are part of the node's report. */
  lemma {:induction false} MembersViolationsInclude(o: Ontology, t: string, allowed: PropertyMap, members: seq<Member>, prefix: string, i: nat)
    requires Acyclic(o.subclassMap)
    requires i < |members|
    ensures forall x :: x in MemberViolations(o, t, allowed, members[i], prefix) ==> x in MembersViolations(o, t, allowed, members, prefix)
    decreases members
  {
    if i < |members| - 1 {
      MembersViolationsInclude(o, t, allowed, members[..|members| - 1], prefix, i);
    }
  }

  /** The findings for any one array position are part of the array's. */
  lemma {:induction false} ItemsViolationsInclude(o: Ontology, prop: string, expected: seq<string>, items: seq<Value>, prefix: string, i: nat)
    requires Acyclic(o.subclassMap)
    requires i < |items|
    ensures forall x :: x in PositionViolations(o, prop, expected, items[i], ItemPath(prefix, prop, i)) ==>
      x in ItemsViolations(o, prop, expected, items, prefix)
    decreases items
  {
    if i < |items| - 1 {
      ItemsViolationsInclude(o, prop, expected, items[..|items| - 1], prefix, i);
    }
  }

  /** A property the node's type does not allow is reported at `prefix + key`. */
  lemma NotAllowedReported(o: Ontology, v: Value, prefix: string, i: nat)
    requires Acyclic(o.subclassMap)
    requires TypeTag(v).Some? && |AllowedProps(o, TypeTag(v).value)| > 0
    requires i < |v.members|
    requires !Reserved(v.members[i].key) && v.members[i].key !in AllowedProps(o, TypeTag(v).value)
    ensures Violation(prefix + v.members[i].key, NotAllowed(v.members[i].key, TypeTag(v).value)) in Violations(o, v, prefix)
  {
    var t := TypeTag(v).value;
    MembersViolationsInclude(o, t, AllowedProps(o, t), v.members, prefix, i);
  }

  /** An allowed property holding a single value of an incompatible guessed type is reported at `prefix + key`. */
  lemma MismatchReported(o: Ontology, v: Value, prefix: string, i: nat)
    requires Acyclic(o.subclassMap)
    requires TypeTag(v).Some? && |AllowedProps(o, TypeTag(v).value)| > 0
    requires i < |v.members|
    requires !Reserved(v.members[i].key) && v.members[i].key in AllowedProps(o, TypeTag(v).value)
    requires !v.members[i].value.Arr?
    requires !IsTypeOrSubtype(o.subclassMap, GuessValueType(v.members[i].value), AllowedProps(o, TypeTag(v).value)[v.members[i].key])
    ensures
      var m := v.members[i];
      var expected := AllowedProps(o, TypeTag(v).value)[m.key];
      Violation(prefix + m.key, Mismatch(m.key, expected, GuessValueType(m.value))) in Violations(o, v, prefix)
  {
    var t := TypeTag(v).value;
    var allowed := AllowedProps(o, t);
    var m := v.members[i];
    var actual := GuessValueType(m.value);
    var e := Violation(prefix + m.key, Mismatch(m.key, allowed[m.key], actual));
    var p := PositionViolations(o, m.key, allowed[m.key], m.value, prefix + m.key);
    assert p[0] == e;
    assert MemberViolations(o, t, allowed, m, prefix) == p;
    MembersViolationsInclude(o, t, allowed, v.members, prefix, i);
  }

  /** An array element of an incompatible guessed type is reported at `prefix + key[j]`. */
  lemma ItemMismatchReported(o: Ontology, v: Value, prefix: string, i: nat, j: nat)
    requires Acyclic(o.subclassMap)
    requires TypeTag(v).Some? && |AllowedProps(o, TypeTag(v).value)| > 0
    requires i < |v.members|
    requires !Reserved(v.members[i].key) && v.members[i].key in AllowedProps(o, TypeTag(v).value)
    requires v.members[i].value.Arr? && j < |v.members[i].value.items|
    requires !IsTypeOrSubtype(o.subclassMap, GuessValueType(v.members[i].value.items[j]), AllowedProps(o, TypeTag(v).value)[v.members[i].key])
    ensures
      var m := v.members[i];
      var expected := AllowedProps(o, TypeTag(v).value)[m.key];
      Violation(ItemPath(prefix, m.key, j), Mismatch(m.key, expected, GuessValueType(m.value.items[j]))) in Violations(o, v, prefix)
  {
    var t := TypeTag(v).value;
    var allowed := AllowedProps(o, t);
    var m := v.members[i];
    var y := m.value.items[j];
    var e := Violation(ItemPath(prefix, m.key, j), Mismatch(m.key, allowed[m.key], GuessValueType(y)));
    var p := PositionViolations(o, m.key, allowed[m.key], y, ItemPath(prefix, m.key, j));
    assert p[0] == e;
    assert MemberViolations(o, t, allowed, m, prefix) == ItemsViolations(o, m.key, allowed[m.key], m.value.items, prefix);
    MembersViolationsInclude(o, t, allowed, v.members, prefix, i);
    ItemsViolationsInclude(o, m.key, allowed[m.key], m.value.items, prefix, j);
  }
}
