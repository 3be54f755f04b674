/**
 * Removal of properties the ontology does not allow (`stripInvalid`).
 *
 * `StripWith` is the specification, `StripInvalid` the loop that builds the
 * cleaned object.  Both take a `ReservedPolicy`: `SanitizeReserved` is the
 * behaviour of the code, which also cleans a typed node found under
 * `@context`; `CopyReserved` copies reserved values untouched, as the
 * validator (which never looks inside them) would need for the property
 * "a node with nothing to report is left unchanged".
 */
module Sanitizer {
  import opened Json
  import opened Hierarchy
  import opened Validator

  datatype ReservedPolicy = SanitizeReserved | CopyReserved

  /** A key survives cleaning when it is reserved or its type allows it. */
  predicate Kept(allowed: PropertyMap, key: string)
  {
    Reserved(key) || key in allowed
  }

  // ---------------------------------------------------------------------
  // Specification
  // ---------------------------------------------------------------------

  /**
   * An untyped value is returned as it is; a typed node keeps only its kept
   * members, cleaned.  A `null` root is excluded: reading `@type` on it throws.
   */
  function StripWith(o: Ontology, policy: ReservedPolicy, v: Value): Value
    requires Acyclic(o.subclassMap)
    requires !v.Null?
    decreases v, 0
  {
    match TypeTag(v)
    case None => v
    case Some(t) => Obj(StripMembers(o, policy, AllowedProps(o, t), v.members))
  }

  /** The code's own behaviour. */
  function Strip(o: Ontology, v: Value): Value
    requires Acyclic(o.subclassMap)
    requires !v.Null?
  {
    StripWith(o, SanitizeReserved, v)
  }

  function StripMembers(o: Ontology, policy: ReservedPolicy, allowed: PropertyMap, members: seq<Member>): seq<Member>
    requires Acyclic(o.subclassMap)
    decreases members, 0
  {
    if members == [] then [] else
      var init := StripMembers(o, policy, allowed, members[..|members| - 1]);
      var m := members[|members| - 1];
      if Kept(allowed, m.key) then init + [Member(m.key, StripMemberValue(o, policy, m.key, m.value))]
      else init
  }

  /** The cleaned value of a kept member. */
  function StripMemberValue(o: Ontology, policy: ReservedPolicy, key: string, x: Value): Value
    requires Acyclic(o.subclassMap)
    decreases x, 3
  {
    if policy == CopyReserved && Reserved(key) then x else StripValue(o, policy, x)
  }

  /** Arrays are cleaned element by element; anything else as a single element. */
  function StripValue(o: Ontology, policy: ReservedPolicy, x: Value): Value
    requires Acyclic(o.subclassMap)
    decreases x, 2
  {
    match x
    case Arr(items) => Arr(StripItems(o, policy, items))
    case _ => StripItem(o, policy, x)
  }

  function StripItems(o: Ontology, policy: ReservedPolicy, items: seq<Value>): (r: seq<Value>)
    requires Acyclic(o.subclassMap)
    ensures |r| == |items|
    decreases items, 0
  {
    if items == [] then [] else
      StripItems(o, policy, items[..|items| - 1]) + [StripItem(o, policy, items[|items| - 1])]
  }

  /** Only typed nodes are cleaned; other values are copied. */
  function StripItem(o: Ontology, policy: ReservedPolicy, y: Value): Value
    requires Acyclic(o.subclassMap)
    decreases y, 1
  {
    if TypeTag(y).Some? then StripWith(o, policy, y) else y
  }

  // ---------------------------------------------------------------------
  // The cleaning loop
  // ---------------------------------------------------------------------

  method StripInvalid(o: Ontology, policy: ReservedPolicy, v: Value) returns (r: Value)
    requires Acyclic(o.subclassMap)
    requires !v.Null?
    ensures r == StripWith(o, policy, v)
    decreases v, 0
  {
    var tag := TypeTag(v);
    if tag.None? {
      return v;
    }
    var t := tag.value;
    var supers := GetAllSuperClasses(o.subclassMap, t);
    var allowed := Assign(o.typeMap, [t] + supers);
    var members := v.members;
    var clean: seq<Member> := [];
    for j := 0 to |members|
      invariant clean == StripMembers(o, policy, allowed, members[..j])
    {
      assert members[..j + 1][..j] == members[..j];
      var m := members[j];
      if Kept(allowed, m.key) {
        var x := StripMemberCopy(o, policy, m.key, m.value);
        clean := clean + [Member(m.key, x)];
      }
    }
    assert members[..|members|] == members;
    r := Obj(clean);
  }

  /** The value stored under a kept key. */
  method StripMemberCopy(o: Ontology, policy: ReservedPolicy, key: string, x: Value) returns (r: Value)
    requires Acyclic(o.subclassMap)
    ensures r == StripMemberValue(o, policy, key, x)
    decreases x, 3
  {
    if policy == CopyReserved && Reserved(key) {
      return x;
    }
    assert StripMemberValue(o, policy, key, x) == StripValue(o, policy, x);
    if x.Arr? {
      var items := x.items;
      var mapped: seq<Value> := [];
      for i := 0 to |items|
        invariant mapped == StripItems(o, policy, items[..i])
      {
        assert items[..i + 1][..i] == items[..i];
        var y := items[i];
        if TypeTag(y).Some? {
          y := StripInvalid(o, policy, y);
        }
        mapped := mapped + [y];
      }
      assert items[..|items|] == items;
      r := Arr(mapped);
    } else {
      assert StripValue(o, policy, x) == StripItem(o, policy, x);
      if TypeTag(x).Some? {
        r := StripInvalid(o, policy, x);
      } else {
        r := x;
      }
    }
  }

  // ---------------------------------------------------------------------
  // What is kept
  // ---------------------------------------------------------------------

  lemma {:induction false} LookupAppend(members: seq<Member>, m: Member, k: string)
    ensures Lookup(members + [m], k) == if Lookup(members, k).Some? then Lookup(members, k)
      else if m.key == k then Some(m.value) else None
  {
    if members != [] {
      assert (members + [m])[1..] == members[1..] + [m];
      LookupAppend(members[1..], m, k);
    }
  }

  /**
   * The cleaned members hold, under each kept key, the cleaned value the
   * original held there, and nothing under any other key.
   */
  lemma {:induction false} StripLookup(o: Ontology, policy: ReservedPolicy, allowed: PropertyMap, members: seq<Member>, k: string)
    requires Acyclic(o.subclassMap)
    ensures Lookup(StripMembers(o, policy, allowed, members), k) ==
      if Kept(allowed, k) && Lookup(members, k).Some?
      then Some(StripMemberValue(o, policy, k, Lookup(members, k).value))
      else None
    decreases members
  {
    if members != [] {
      var init, m := members[..|members| - 1], members[|members| - 1];
      assert members == init + [m];
      StripLookup(o, policy, allowed, init, k);
      LookupAppend(init, m, k);
      if Kept(allowed, m.key) {
        LookupAppend(StripMembers(o, policy, allowed, init), Member(m.key, StripMemberValue(o, policy, m.key, m.value)), k);
      }
    }
  }

  /** Cleaning keeps the member order: the kept keys, in their original order. */
  lemma {:induction false} StripKeys(o: Ontology, policy: ReservedPolicy, allowed: PropertyMap, members: seq<Member>)
    requires Acyclic(o.subclassMap)
    ensures Keys(StripMembers(o, policy, allowed, members)) == KeptKeys(allowed, Keys(members))
    decreases members
  {
    if members != [] {
      var init, m := members[..|members| - 1], members[|members| - 1];
      StripKeys(o, policy, allowed, init);
      assert members == init + [m];
      KeysAppend(init, m);
      var s := StripMembers(o, policy, allowed, init);
      KeysAppend(s, Member(m.key, StripMemberValue(o, policy, m.key, m.value)));
      KeptKeysAppend(allowed, Keys(init), m.key);
    }
  }

  /** The kept keys of a key list, by the usual front-to-back filter. */
  function KeptKeys(allowed: PropertyMap, keys: seq<string>): (r: seq<string>)
    ensures forall k :: k in r <==> k in keys && Kept(allowed, k)
  {
    if keys == [] then []
    else if Kept(allowed, keys[0]) then [keys[0]] + KeptKeys(allowed, keys[1..])
    else KeptKeys(allowed, keys[1..])
  }

  lemma {:induction false} KeptKeysAppend(allowed: PropertyMap, keys: seq<string>, k: string)
    ensures KeptKeys(allowed, keys + [k]) == KeptKeys(allowed, keys) + (if Kept(allowed, k) then [k] else [])
  {
    if keys != [] {
      assert (keys + [k])[1..] == keys[1..] + [k];
      KeptKeysAppend(allowed, keys[1..], k);
    }
  }

  /** Cleaning never changes whether a value is a typed node, nor its type. */
  lemma StripPreservesTag(o: Ontology, policy: ReservedPolicy, v: Value)
    requires Acyclic(o.subclassMap)
    requires !v.Null?
    ensures TypeTag(StripWith(o, policy, v)) == TypeTag(v)
  {
    if TypeTag(v).Some? {
      var t := TypeTag(v).value;
      StripLookup(o, policy, AllowedProps(o, t), v.members, "@type");
      assert TypeTag(Str(t)).None?;
      assert StripValue(o, policy, Str(t)) == StripItem(o, policy, Str(t)) == Str(t);
    }
  }

  lemma StripItemPreservesTag(o: Ontology, policy: ReservedPolicy, y: Value)
    requires Acyclic(o.subclassMap)
    ensures TypeTag(StripItem(o, policy, y)) == TypeTag(y)
  {
    if !y.Null? {
      StripPreservesTag(o, policy, y);
    }
  }

  // ---------------------------------------------------------------------
  // Cleaning twice is cleaning once
  // ---------------------------------------------------------------------

  lemma {:induction false} StripIdempotent(o: Ontology, policy: ReservedPolicy, v: Value)
    requires Acyclic(o.subclassMap)
    requires !v.Null?
    ensures StripWith(o, policy, StripWith(o, policy, v)) == StripWith(o, policy, v)
    decreases v, 0
  {
    if TypeTag(v).Some? {
      StripPreservesTag(o, policy, v);
      StripMembersIdempotent(o, policy, AllowedProps(o, TypeTag(v).value), v.members);
    }
  }

  lemma {:induction false} StripMembersIdempotent(o: Ontology, policy: ReservedPolicy, allowed: PropertyMap, members: seq<Member>)
    requires Acyclic(o.subclassMap)
    ensures StripMembers(o, policy, allowed, StripMembers(o, policy, allowed, members)) == StripMembers(o, policy, allowed, members)
    decreases members, 0
  {
    if members != [] {
      var init, m := members[..|members| - 1], members[|members| - 1];
      var a := StripMembers(o, policy, allowed, init);
      StripMembersIdempotent(o, policy, allowed, init);
      if Kept(allowed, m.key) {
        var s := a + [Member(m.key, StripMemberValue(o, policy, m.key, m.value))];
        assert s[..|s| - 1] == a;
        StripMemberValueIdempotent(o, policy, m.key, m.value);
      }
    }
  }

  lemma {:induction false} StripMemberValueIdempotent(o: Ontology, policy: ReservedPolicy, key: string, x: Value)
    requires Acyclic(o.subclassMap)
    ensures StripMemberValue(o, policy, key, StripMemberValue(o, policy, key, x)) == StripMemberValue(o, policy, key, x)
    decreases x, 3
  {
    if !(policy == CopyReserved && Reserved(key)) {
      StripValueIdempotent(o, policy, x);
    }
  }

  lemma {:induction false} StripValueIdempotent(o: Ontology, policy: ReservedPolicy, x: Value)
    requires Acyclic(o.subclassMap)
    ensures StripValue(o, policy, StripValue(o, policy, x)) == StripValue(o, policy, x)
    decreases x, 2
  {
    if x.Arr? {
      StripItemsIdempotent(o, policy, x.items);
    } else {
      assert StripValue(o, policy, x) == StripItem(o, policy, x);
      StripItemIdempotent(o, policy, x);
    }
  }

  lemma {:induction false} StripItemsIdempotent(o: Ontology, policy: ReservedPolicy, items: seq<Value>)
    requires Acyclic(o.subclassMap)
    ensures StripItems(o, policy, StripItems(o, policy, items)) == StripItems(o, policy, items)
    decreases items, 0
  {
    if items != [] {
      var b := StripItems(o, policy, items[..|items| - 1]);
      var s := b + [StripItem(o, policy, items[|items| - 1])];
      assert s[..|s| - 1] == b;
      StripItemsIdempotent(o, policy, items[..|items| - 1]);
      StripItemIdempotent(o, policy, items[|items| - 1]);
    }
  }

  lemma {:induction false} StripItemIdempotent(o: Ontology, policy: ReservedPolicy, y: Value)
    requires Acyclic(o.subclassMap)
    ensures StripItem(o, policy, StripItem(o, policy, y)) == StripItem(o, policy, y)
    ensures !y.Arr? ==> !StripItem(o, policy, y).Arr?
    decreases y, 1
  {
    if TypeTag(y).Some? {
      StripPreservesTag(o, policy, y);
      StripIdempotent(o, policy, y);
    }
  }

  // ---------------------------------------------------------------------
  // After cleaning, nothing is reported as not allowed
  // ---------------------------------------------------------------------

  predicate NoneNotAllowed(errs: seq<Violation>)
  {
    forall e :: e in errs ==> !e.kind.NotAllowed?
  }

  lemma {:induction false} StripRemovesNotAllowed(o: Ontology, policy: ReservedPolicy, v: Value, prefix: string)
    requires Acyclic(o.subclassMap)
    requires !v.Null?
    ensures NoneNotAllowed(Violations(o, StripWith(o, policy, v), prefix))
    decreases v, 0
  {
    StripPreservesTag(o, policy, v);
    if TypeTag(v).Some? {
      var t := TypeTag(v).value;
      StripMembersRemoveNotAllowed(o, policy, t, AllowedProps(o, t), v.members, prefix);
    }
  }

  lemma {:induction false} StripMembersRemoveNotAllowed(o: Ontology, policy: ReservedPolicy, t: string, allowed: PropertyMap, members: seq<Member>, prefix: string)
    requires Acyclic(o.subclassMap)
    ensures NoneNotAllowed(MembersViolations(o, t, allowed, StripMembers(o, policy, allowed, members), prefix))
    decreases members, 0
  {
    if members != [] {
      var init, m := members[..|members| - 1], members[|members| - 1];
      var a := StripMembers(o, policy, allowed, init);
      StripMembersRemoveNotAllowed(o, policy, t, allowed, init, prefix);
      if Kept(allowed, m.key) {
        var last := Member(m.key, StripMemberValue(o, policy, m.key, m.value));
        var s := a + [last];
        assert s[..|s| - 1] == a;
        assert MembersViolations(o, t, allowed, s, prefix)
          == MembersViolations(o, t, allowed, a, prefix) + MemberViolations(o, t, allowed, last, prefix);
        if !Reserved(m.key) {
          StripValueRemovesNotAllowed(o, policy, t, allowed, m.key, m.value, prefix);
        }
      }
    }
  }

  lemma {:induction false} StripValueRemovesNotAllowed(o: Ontology, policy: ReservedPolicy, t: string, allowed: PropertyMap, key: string, x: Value, prefix: string)
    requires Acyclic(o.subclassMap)
    requires !Reserved(key) && key in allowed
    ensures NoneNotAllowed(MemberViolations(o, t, allowed, Member(key, StripValue(o, policy, x)), prefix))
    decreases x, 2
  {
    if x.Arr? {
      StripItemsRemoveNotAllowed(o, policy, key, allowed[key], x.items, prefix);
    } else {
      assert StripValue(o, policy, x) == StripItem(o, policy, x);
      StripItemIdempotent(o, policy, x);
      StripItemRemovesNotAllowed(o, policy, key, allowed[key], x, prefix + key);
    }
  }

  lemma {:induction false} StripItemsRemoveNotAllowed(o: Ontology, policy: ReservedPolicy, prop: string, expected: seq<string>, items: seq<Value>, prefix: string)
    requires Acyclic(o.subclassMap)
    ensures NoneNotAllowed(ItemsViolations(o, prop, expected, StripItems(o, policy, items), prefix))
    decreases items, 0
  {
    if items != [] {
      var b := StripItems(o, policy, items[..|items| - 1]);
      var y := StripItem(o, policy, items[|items| - 1]);
      var s := b + [y];
      assert s[..|s| - 1] == b;
      assert ItemsViolations(o, prop, expected, s, prefix) == ItemsViolations(o, prop, expected, b, prefix)
        + PositionViolations(o, prop, expected, y, ItemPath(prefix, prop, |items| - 1));
      StripItemsRemoveNotAllowed(o, policy, prop, expected, items[..|items| - 1], prefix);
      StripItemRemovesNotAllowed(o, policy, prop, expected, items[|items| - 1], ItemPath(prefix, prop, |items| - 1));
    }
  }

  lemma {:induction false} StripItemRemovesNotAllowed(o: Ontology, policy: ReservedPolicy, prop: string, expected: seq<string>, y: Value, path: string)
    requires Acyclic(o.subclassMap)
    ensures NoneNotAllowed(PositionViolations(o, prop, expected, StripItem(o, policy, y), path))
    decreases y, 1
  {
    StripItemPreservesTag(o, policy, y);
    if TypeTag(y).Some? {
      StripRemovesNotAllowed(o, policy, y, path + ".");
    }
  }

  // ---------------------------------------------------------------------
  // A node with nothing to report is left as it is (copying reserved values)
  // ---------------------------------------------------------------------

  lemma ValidatedUnchanged(o: Ontology, v: Value, prefix: string)
    requires Acyclic(o.subclassMap)
    requires !v.Null?
    requires Violations(o, v, prefix) == []
    ensures StripWith(o, CopyReserved, v) == v
  {
    ViolationsEmptyIff(o, v, prefix);
    ConformingUnchanged(o, v);
  }

  lemma {:induction false} ConformingUnchanged(o: Ontology, v: Value)
    requires Acyclic(o.subclassMap)
    requires !v.Null?
    requires Conforms(o, v)
    ensures StripWith(o, CopyReserved, v) == v
    decreases v, 0
  {
    var t := TypeTag(v).value;
    ConformingMembersUnchanged(o, AllowedProps(o, t), v.members);
  }

  lemma {:induction false} ConformingMembersUnchanged(o: Ontology, allowed: PropertyMap, members: seq<Member>)
    requires Acyclic(o.subclassMap)
    requires forall m :: m in members ==> MemberConforms(o, allowed, m)
    ensures StripMembers(o, CopyReserved, allowed, members) == members
    decreases members, 0
  {
    if members != [] {
      var init, m := members[..|members| - 1], members[|members| - 1];
      assert members == init + [m];
      ConformingMembersUnchanged(o, allowed, init);
      assert MemberConforms(o, allowed, m);
      if !Reserved(m.key) {
        ConformingValueUnchanged(o, allowed[m.key], m.value);
      }
    }
  }

  lemma {:induction false} ConformingValueUnchanged(o: Ontology, expected: seq<string>, x: Value)
    requires Acyclic(o.subclassMap)
    requires if x.Arr? then forall y :: y in x.items ==> PositionConforms(o, expected, y) else PositionConforms(o, expected, x)
    ensures StripValue(o, CopyReserved, x) == x
    decreases x, 2
  {
    if x.Arr? {
      ConformingItemsUnchanged(o, expected, x.items);
    } else {
      ConformingItemUnchanged(o, expected, x);
    }
  }

  lemma {:induction false} ConformingItemsUnchanged(o: Ontology, expected: seq<string>, items: seq<Value>)
    requires Acyclic(o.subclassMap)
    requires forall y :: y in items ==> PositionConforms(o, expected, y)
    ensures StripItems(o, CopyReserved, items) == items
    decreases items, 0
  {
    if items != [] {
      var init, y := items[..|items| - 1], items[|items| - 1];
      assert items == init + [y];
      ConformingItemsUnchanged(o, expected, init);
      ConformingItemUnchanged(o, expected, y);
    }
  }

  lemma {:induction false} ConformingItemUnchanged(o: Ontology, expected: seq<string>, y: Value)
    requires Acyclic(o.subclassMap)
    requires PositionConforms(o, expected, y)
    ensures StripItem(o, CopyReserved, y) == y
    decreases y, 1
  {
    if TypeTag(y).Some? {
      ConformingUnchanged(o, y);
    }
  }

  // ---------------------------------------------------------------------
  // As written, cleaning can change a node with nothing to report
  // ---------------------------------------------------------------------

  /** A `HowTo` whose `@context` is a typed node of a type the ontology does not know, with one extra key. */
  const ExampleOntology := Ontology(map[], map["HowTo" := map["name" := ["Text"]]])
  const ExampleContext := Obj([Member("@type", Str("Thing")), Member("note", Str("x"))])
  const ExampleNode := Obj([Member("@type", Str("HowTo")), Member("@context", ExampleContext)])

  lemma ExampleAcyclic()
    ensures Acyclic(ExampleOntology.subclassMap)
  {
    forall t ensures ReachesRoot(ExampleOntology.subclassMap, t, 0) {
      assert !HasParent(ExampleOntology.subclassMap, t);
    }
  }

  /** A type with no ancestors and no declared properties in the example ontology. */
  lemma ExampleLevels(t: string)
    ensures Acyclic(ExampleOntology.subclassMap)
    ensures Ancestors(ExampleOntology.subclassMap, t) == []
    ensures AllowedProps(ExampleOntology, t) == Level(ExampleOntology.typeMap, t)
  {
    ExampleAcyclic();
    var o := ExampleOntology;
    assert Ancestors(o.subclassMap, t) == [];
    assert [t] + Ancestors(o.subclassMap, t) == [t];
    assert Assign(o.typeMap, [t]) == Assign(o.typeMap, []) + Level(o.typeMap, t);
  }

  lemma ExampleHasNothingToReport()
    ensures Acyclic(ExampleOntology.subclassMap)
    ensures Violations(ExampleOntology, ExampleNode, "") == []
  {
    ExampleAcyclic();
    var o, v := ExampleOntology, ExampleNode;
    ExampleLevels("HowTo");
    var allowed := AllowedProps(o, "HowTo");
    assert TypeTag(v) == Some("HowTo");
    assert v.members[..1] == [v.members[0]] && v.members[..1][..0] == [];
    assert MembersViolations(o, "HowTo", allowed, v.members[..1], "") == [];
    assert MembersViolations(o, "HowTo", allowed, v.members, "") == [];
  }

  /**
   * A node of a type without properties keeps only its type when cleaned, in
   * any ontology, while the validator reports it as an unknown type.
   */
  lemma UnknownTypeCleaned(o: Ontology, t: string, extra: Member, prefix: string)
    requires Acyclic(o.subclassMap)
    requires t != "" && AllowedProps(o, t) == map[] && !Reserved(extra.key)
    ensures StripWith(o, SanitizeReserved, Obj([Member("@type", Str(t)), extra])) == Obj([Member("@type", Str(t))])
    ensures Violations(o, Obj([Member("@type", Str(t)), extra]), prefix) == [Violation(prefix, UnknownType(t))]
  {
    var ms := [Member("@type", Str(t)), extra];
    assert TypeTag(Obj(ms)) == Some(t);
    assert ms[..1] == [ms[0]] && ms[..1][..0] == [];
    assert TypeTag(Str(t)).None?;
    assert StripValue(o, SanitizeReserved, Str(t)) == StripItem(o, SanitizeReserved, Str(t)) == Str(t);
    assert StripMembers(o, SanitizeReserved, map[], ms[..1]) == [Member("@type", Str(t))];
    assert !Kept(map[], extra.key);
    assert StripMembers(o, SanitizeReserved, map[], ms) == StripMembers(o, SanitizeReserved, map[], ms[..1]);
  }

  /** The code cleans the typed node under `@context` and drops its extra key. */
  lemma ExampleContextCleaned()
    ensures Acyclic(ExampleOntology.subclassMap)
    ensures StripWith(ExampleOntology, SanitizeReserved, ExampleContext) == Obj([Member("@type", Str("Thing"))])
  {
    ExampleLevels("Thing");
    assert AllowedProps(ExampleOntology, "Thing") == map[];
    UnknownTypeCleaned(ExampleOntology, "Thing", Member("note", Str("x")), "");
  }

  /**
   * The validator skips `@context`, but the code cleans a typed node found
   * there: the example has nothing to report, yet cleaning changes it.  With
   * reserved values copied, it is left as it is.
   */
  lemma StripChangesValidatedNode()
    ensures Acyclic(ExampleOntology.subclassMap)
    ensures Violations(ExampleOntology, ExampleNode, "") == []
    ensures Strip(ExampleOntology, ExampleNode) != ExampleNode
    ensures StripWith(ExampleOntology, CopyReserved, ExampleNode) == ExampleNode
  {
    ExampleAcyclic();
    var o, v := ExampleOntology, ExampleNode;
    ExampleHasNothingToReport();
    ExampleContextCleaned();
    ExampleLevels("HowTo");
    var allowed := AllowedProps(o, "HowTo");
    assert TypeTag(v) == Some("HowTo");
    assert v.members[..1] == [v.members[0]];
    var all := StripMembers(o, SanitizeReserved, allowed, v.members);
    assert all[|all| - 1] == Member("@context", StripMemberValue(o, SanitizeReserved, "@context", ExampleContext));
    assert StripMemberValue(o, SanitizeReserved, "@context", ExampleContext) == StripItem(o, SanitizeReserved, ExampleContext);
    assert Strip(o, v).members[|all| - 1] != v.members[1];
    ValidatedUnchanged(o, v, "");
  }
}
