/**
 * The validator and the sanitizer on a small invented `HowTo` table (a
 * stand-in for the schema.org data, with four types): a valid
 * recipe, a duration given as a number, extra keys to strip, and a node
 * without a type.
 */
module Scenarios {
  import opened Json
  import opened Hierarchy
  import opened Patterns
  import opened ValueTypes
  import opened Validator
  import opened Sanitizer

  const Sub: SubclassMap := map["HowTo" := "CreativeWork", "HowToStep" := "CreativeWork", "HowToTool" := "CreativeWork"]

  /** The properties `HowTo` declares itself. */
  const HowToOwn: PropertyMap := map["totalTime" := ["Duration"], "tool" := ["HowToTool"], "step" := ["HowToStep"]]

  const Vocabulary := Ontology(Sub, map["CreativeWork" := map["name" := ["Text"]], "HowTo" := HowToOwn])

  lemma VocabularyAcyclic()
    ensures Acyclic(Vocabulary.subclassMap)
  {
    forall t ensures ReachesRoot(Sub, t, |Sub|) {
      assert !HasParent(Sub, "CreativeWork");
      assert ReachesRoot(Sub, t, 1);
      ReachesRootMono(Sub, t, 1, |Sub|);
    }
  }

  /** Every type with a parent has exactly `CreativeWork` above it. */
  lemma AncestorsOfChild(t: string)
    requires t in Sub
    ensures Acyclic(Sub)
    ensures Ancestors(Sub, t) == ["CreativeWork"]
  {
    VocabularyAcyclic();
    assert Sub[t] == "CreativeWork";
    assert HasParent(Sub, t) && !HasParent(Sub, "CreativeWork");
    ChainFuel(Sub, t, |Sub|, 1);
  }

  /** A type with a parent: its own properties and those of `CreativeWork`. */
  lemma AllowedOfChild(t: string)
    requires t in Sub
    ensures Acyclic(Vocabulary.subclassMap)
    ensures AllowedProps(Vocabulary, t) == Level(Vocabulary.typeMap, t) + map["name" := ["Text"]]
  {
    AncestorsOfChild(t);
    AllowedPropsOneAncestor(Vocabulary, t, "CreativeWork");
    assert Level(Vocabulary.typeMap, "CreativeWork") == map["name" := ["Text"]];
  }

  /** A type outside the table has no ancestors, so only an exact match is compatible with it. */
  lemma CompatibleOnlyWhenListed(a: string, expected: seq<string>)
    requires a !in Sub
    ensures Acyclic(Vocabulary.subclassMap)
    ensures IsTypeOrSubtype(Vocabulary.subclassMap, a, expected) <==> a in expected
  {
    VocabularyAcyclic();
    assert Ancestors(Sub, a) == [];
  }

  // ---------------------------------------------------------------------
  // Nodes
  // ---------------------------------------------------------------------

  const Context := Member("@context", Str("https://schema.org/"))
  /** A typed node holding only a `name`. */
  function Named(t: string, name: string): Value
  {
    Obj([Member("@type", Str(t)), Member("name", Str(name))])
  }

  const Tool := Named("HowToTool", "Kettle")
  const Step := Named("HowToStep", "Boil water")
  const RecipeMembers := [Context, Member("@type", Str("HowTo")), Member("name", Str("Make Tea")),
    Member("totalTime", Str("PT5M")), Member("tool", Tool), Member("step", Arr([Step]))]
  const MakeTea := Obj(RecipeMembers)

  /** A string that reads as plain text. */
  predicate Plain(s: string)
  {
    |s| > 0 && Upper(s[0]) != 'P' && Upper(s[0]) != 'H' && s[0] != '/'
  }

  /** Plain text where `Text` is expected gives nothing to report, in any vocabulary. */
  lemma TextMember(o: Ontology, t: string, allowed: PropertyMap, key: string, text: string, prefix: string)
    requires Acyclic(o.subclassMap)
    requires !Reserved(key) && key in allowed && allowed[key] == ["Text"] && Plain(text)
    ensures MemberViolations(o, t, allowed, Member(key, Str(text)), prefix) == []
  {
    PlainText(text);
    assert MemberViolations(o, t, allowed, Member(key, Str(text)), prefix)
      == PositionViolations(o, key, ["Text"], Str(text), prefix + key);
  }

  /** A `name` of plain text is allowed on every type below `CreativeWork` and gives nothing to report. */
  lemma NameIsText(t: string, name: string, prefix: string)
    requires t in Sub && Plain(name)
    ensures Acyclic(Vocabulary.subclassMap)
    ensures MemberViolations(Vocabulary, t, AllowedProps(Vocabulary, t), Member("name", Str(name)), prefix) == []
  {
    AllowedOfChild(t);
    TextMember(Vocabulary, t, AllowedProps(Vocabulary, t), "name", name, prefix);
  }

  lemma NameConforms(t: string, name: string)
    requires t in Sub && Plain(name)
    ensures Acyclic(Vocabulary.subclassMap)
    ensures MemberConforms(Vocabulary, AllowedProps(Vocabulary, t), Member("name", Str(name)))
  {
    NameIsText(t, name, "");
    MemberViolationsEmptyIff(Vocabulary, t, AllowedProps(Vocabulary, t), Member("name", Str(name)), "");
  }

  lemma NamedMembersConform(t: string, name: string, prefix: string)
    requires t in Sub && Plain(name)
    ensures Acyclic(Vocabulary.subclassMap)
    ensures MembersViolations(Vocabulary, t, AllowedProps(Vocabulary, t), Named(t, name).members, prefix) == []
  {
    NameIsText(t, name, prefix);
    var allowed := AllowedProps(Vocabulary, t);
    var ms := Named(t, name).members;
    assert ms[..1] == [ms[0]] && ms[..1][..0] == [];
    assert Reserved(ms[0].key);
    assert MembersViolations(Vocabulary, t, allowed, ms[..1], prefix)
      == MembersViolations(Vocabulary, t, allowed, [], prefix) + MemberViolations(Vocabulary, t, allowed, ms[0], prefix);
    assert MembersViolations(Vocabulary, t, allowed, ms, prefix)
      == MembersViolations(Vocabulary, t, allowed, ms[..1], prefix) + MemberViolations(Vocabulary, t, allowed, ms[1], prefix);
  }

  lemma NamedNodeConforms(t: string, name: string, prefix: string)
    requires t in Sub && Plain(name)
    ensures Acyclic(Vocabulary.subclassMap)
    ensures Violations(Vocabulary, Named(t, name), prefix) == []
  {
    AllowedOfChild(t);
    NamedMembersConform(t, name, prefix);
    assert t != "";
    assert TypeTag(Named(t, name)) == Some(t);
    assert "name" in AllowedProps(Vocabulary, t);
  }

  /** `HowTo` allows each property it declares, with the ranges it declares. */
  lemma HowToDeclares(k: string)
    requires k in HowToOwn
    ensures Acyclic(Vocabulary.subclassMap)
    ensures k in AllowedProps(Vocabulary, "HowTo") && AllowedProps(Vocabulary, "HowTo")[k] == HowToOwn[k]
  {
    AllowedOfChild("HowTo");
    assert Level(Vocabulary.typeMap, "HowTo") == HowToOwn;
    assert k != "name";
  }

  /** `HowTo` inherits `name`, and allows nothing that neither it nor `CreativeWork` declares. */
  lemma HowToInherits()
    ensures Acyclic(Vocabulary.subclassMap)
    ensures "name" in AllowedProps(Vocabulary, "HowTo") && AllowedProps(Vocabulary, "HowTo")["name"] == ["Text"]
    ensures "invalidProperty" !in AllowedProps(Vocabulary, "HowTo")
    ensures |AllowedProps(Vocabulary, "HowTo")| > 0
  {
    AllowedOfChild("HowTo");
    assert Level(Vocabulary.typeMap, "HowTo") == HowToOwn;
    assert "invalidProperty" !in HowToOwn;
  }

  /** A typed node in a position that lists its type only reports what is wrong inside it. */
  lemma TypedPosition(prop: string, expected: seq<string>, x: Value, path: string)
    requires TypeTag(x).Some? && TypeTag(x).value in expected
    ensures Acyclic(Vocabulary.subclassMap)
    ensures PositionViolations(Vocabulary, prop, expected, x, path) == Violations(Vocabulary, x, path + ".")
  {
    VocabularyAcyclic();
    assert GuessValueType(x) == TypeTag(x).value;
  }

  /** A named node where its own type is expected has nothing to report. */
  lemma NamedPosition(prop: string, t: string, name: string, path: string)
    requires t in Sub && Plain(name)
    ensures Acyclic(Vocabulary.subclassMap)
    ensures PositionViolations(Vocabulary, prop, [t], Named(t, name), path) == []
  {
    NamedNodeConforms(t, name, path + ".");
    assert TypeTag(Named(t, name)) == Some(t);
    TypedPosition(prop, [t], Named(t, name), path);
  }

  /** ... and neither has a property holding one, */
  lemma NamedMember(owner: string, allowed: PropertyMap, prop: string, t: string, name: string)
    requires t in Sub && Plain(name)
    requires !Reserved(prop) && prop in allowed && allowed[prop] == [t]
    ensures Acyclic(Vocabulary.subclassMap)
    ensures MemberViolations(Vocabulary, owner, allowed, Member(prop, Named(t, name)), "") == []
    ensures MemberConforms(Vocabulary, allowed, Member(prop, Named(t, name)))
  {
    NamedPosition(prop, t, name, prop);
    assert "" + prop == prop;
    MemberViolationsEmptyIff(Vocabulary, owner, allowed, Member(prop, Named(t, name)), "");
  }

  /** ... nor one holding a list of one. */
  lemma NamedItemMember(owner: string, allowed: PropertyMap, prop: string, t: string, name: string)
    requires t in Sub && Plain(name)
    requires !Reserved(prop) && prop in allowed && allowed[prop] == [t]
    ensures Acyclic(Vocabulary.subclassMap)
    ensures MemberViolations(Vocabulary, owner, allowed, Member(prop, Arr([Named(t, name)])), "") == []
    ensures MemberConforms(Vocabulary, allowed, Member(prop, Arr([Named(t, name)])))
  {
    var path := ItemPath("", prop, 0);
    NamedPosition(prop, t, name, path);
    assert [Named(t, name)][..0] == [];
    assert ItemsViolations(Vocabulary, prop, [t], [Named(t, name)], "") == [];
    MemberViolationsEmptyIff(Vocabulary, owner, allowed, Member(prop, Arr([Named(t, name)])), "");
  }

  /** A duration string where a `Duration` is expected has nothing to report. */
  lemma DurationMember(owner: string, allowed: PropertyMap, prop: string)
    requires !Reserved(prop) && prop in allowed && allowed[prop] == ["Duration"]
    ensures Acyclic(Vocabulary.subclassMap)
    ensures MemberViolations(Vocabulary, owner, allowed, Member(prop, Str("PT5M")), "") == []
    ensures MemberConforms(Vocabulary, allowed, Member(prop, Str("PT5M")))
  {
    VocabularyAcyclic();
    GuessMinutes();
    MemberViolationsEmptyIff(Vocabulary, owner, allowed, Member(prop, Str("PT5M")), "");
  }

  lemma RecipeTag()
    ensures TypeTag(MakeTea) == Some("HowTo")
  {
    var ms := RecipeMembers;
    assert ms[0].key != "@type" && ms[1].key == "@type";
    assert ms[1..][0] == ms[1];
    assert Lookup(ms, "@type") == Lookup(ms[1..], "@type");
  }

  /** Six members that each conform conform as a list (a helper for the recipe below). */
  lemma SixConform(allowed: PropertyMap, a: Member, b: Member, c: Member, d: Member, e: Member, f: Member)
    requires Acyclic(Vocabulary.subclassMap)
    requires MemberConforms(Vocabulary, allowed, a) && MemberConforms(Vocabulary, allowed, b)
    requires MemberConforms(Vocabulary, allowed, c) && MemberConforms(Vocabulary, allowed, d)
    requires MemberConforms(Vocabulary, allowed, e) && MemberConforms(Vocabulary, allowed, f)
    ensures forall m | m in [a, b, c, d, e, f] :: MemberConforms(Vocabulary, allowed, m)
  {
  }

  lemma RecipeTextConforms()
    ensures Acyclic(Vocabulary.subclassMap)
    ensures MemberConforms(Vocabulary, AllowedProps(Vocabulary, "HowTo"), Member("name", Str("Make Tea")))
    ensures MemberConforms(Vocabulary, AllowedProps(Vocabulary, "HowTo"), Member("totalTime", Str("PT5M")))
  {
    HowToDeclares("totalTime");
    NameConforms("HowTo", "Make Tea");
    DurationMember("HowTo", AllowedProps(Vocabulary, "HowTo"), "totalTime");
  }

  lemma RecipeToolConforms()
    ensures Acyclic(Vocabulary.subclassMap)
    ensures MemberConforms(Vocabulary, AllowedProps(Vocabulary, "HowTo"), Member("tool", Tool))
  {
    HowToDeclares("tool");
    NamedMember("HowTo", AllowedProps(Vocabulary, "HowTo"), "tool", "HowToTool", "Kettle");
  }

  lemma RecipeStepsConform()
    ensures Acyclic(Vocabulary.subclassMap)
    ensures MemberConforms(Vocabulary, AllowedProps(Vocabulary, "HowTo"), Member("step", Arr([Step])))
  {
    HowToDeclares("step");
    NamedItemMember("HowTo", AllowedProps(Vocabulary, "HowTo"), "step", "HowToStep", "Boil water");
  }

  lemma RecipeMembersConform()
    ensures Acyclic(Vocabulary.subclassMap)
    ensures forall m | m in RecipeMembers :: MemberConforms(Vocabulary, AllowedProps(Vocabulary, "HowTo"), m)
  {
    RecipeTextConforms();
    RecipeToolConforms();
    RecipeStepsConform();
    SixConform(AllowedProps(Vocabulary, "HowTo"), Context, Member("@type", Str("HowTo")), Member("name", Str("Make Tea")),
      Member("totalTime", Str("PT5M")), Member("tool", Tool), Member("step", Arr([Step])));
  }

  /** The recipe of the first test case has nothing to report. */
  lemma MakeTeaIsValid()
    ensures Acyclic(Vocabulary.subclassMap)
    ensures Violations(Vocabulary, MakeTea, "") == []
  {
    AllowedOfChild("HowTo");
    var allowed := AllowedProps(Vocabulary, "HowTo");
    assert "name" in allowed;
    RecipeMembersConform();
    MembersViolationsEmptyIff(Vocabulary, "HowTo", allowed, RecipeMembers, "");
    RecipeTag();
  }

  // ---------------------------------------------------------------------
  // Problems the validator reports
  // ---------------------------------------------------------------------

  const LateRecipe := Obj([Member("@type", Str("HowTo")), Member("totalTime", Num(true))])

  lemma IntegerIsNotDuration()
    ensures Acyclic(Vocabulary.subclassMap)
    ensures GuessValueType(Num(true)) == "Integer"
    ensures !IsTypeOrSubtype(Vocabulary.subclassMap, "Integer", ["Duration"])
  {
    CompatibleOnlyWhenListed("Integer", ["Duration"]);
  }

  /** An integer where the only expected type is not a supertype of `Integer` is reported, in any vocabulary. */
  lemma IntegerMismatch(o: Ontology, v: Value, i: nat, expected: seq<string>)
    requires Acyclic(o.subclassMap)
    requires TypeTag(v).Some? && |AllowedProps(o, TypeTag(v).value)| > 0 && i < |v.members|
    requires !Reserved(v.members[i].key) && v.members[i].value == Num(true)
    requires v.members[i].key in AllowedProps(o, TypeTag(v).value) && AllowedProps(o, TypeTag(v).value)[v.members[i].key] == expected
    requires !IsTypeOrSubtype(o.subclassMap, "Integer", expected)
    ensures Violation(v.members[i].key, Mismatch(v.members[i].key, expected, "Integer")) in Violations(o, v, "")
  {
    assert GuessValueType(Num(true)) == "Integer";
    MismatchReported(o, v, "", i);
    assert "" + v.members[i].key == v.members[i].key;
  }

  /** On a `HowTo` node, an integer under `totalTime` is reported where a `Duration` is expected. */
  lemma IntegerDurationReported(v: Value, i: nat)
    requires TypeTag(v) == Some("HowTo") && i < |v.members| && v.members[i] == Member("totalTime", Num(true))
    ensures Acyclic(Vocabulary.subclassMap)
    ensures Violation("totalTime", Mismatch("totalTime", ["Duration"], "Integer")) in Violations(Vocabulary, v, "")
  {
    IntegerIsNotDuration();
    HowToDeclares("totalTime");
    HowToInherits();
    IntegerMismatch(Vocabulary, v, i, ["Duration"]);
  }

  /** A duration given as a number is reported as an `Integer` where a `Duration` is expected. */
  lemma NumericDurationReported()
    ensures Acyclic(Vocabulary.subclassMap)
    ensures Violation("totalTime", Mismatch("totalTime", ["Duration"], "Integer")) in Violations(Vocabulary, LateRecipe, "")
  {
    assert TypeTag(LateRecipe) == Some("HowTo");
    IntegerDurationReported(LateRecipe, 1);
  }

  const Untyped := Obj([Member("name", Str("No type here"))])

  /** A node without `@type` is reported once, and nothing inside it is looked at. */
  lemma UntypedReported()
    ensures Acyclic(Vocabulary.subclassMap)
    ensures Violations(Vocabulary, Untyped, "") == [Violation("", MissingType)]
  {
    VocabularyAcyclic();
    assert Untyped.members[0].key != "@type";
  }

  const Foreign := Obj([Member("@type", Str("Recipe")), Member("name", Str("Make Tea"))])

  /** A type the vocabulary does not declare is reported once, and nothing inside it is looked at. */
  lemma UnknownTypeReported()
    ensures Acyclic(Vocabulary.subclassMap)
    ensures Violations(Vocabulary, Foreign, "") == [Violation("", UnknownType("Recipe"))]
  {
    VocabularyAcyclic();
    assert TypeTag(Foreign) == Some("Recipe");
    assert !HasParent(Sub, "Recipe");
    assert Ancestors(Sub, "Recipe") == [];
    var ts := ["Recipe"] + Ancestors(Sub, "Recipe");
    assert ts == ["Recipe"] && ts[..0] == [];
    assert "Recipe" !in Vocabulary.typeMap;
    assert Assign(Vocabulary.typeMap, ts) == Assign(Vocabulary.typeMap, []) + Level(Vocabulary.typeMap, "Recipe");
    assert AllowedProps(Vocabulary, "Recipe") == map[];
  }

  // ---------------------------------------------------------------------
  // Cleaning
  // ---------------------------------------------------------------------

  const Messy := Obj([Member("@type", Str("HowTo")), Member("name", Str("Make Tea")), Member("invalidProperty", Str("x"))])

  /** A plain string under any key comes through cleaning as it is. */
  lemma StringKept(key: string, s: string)
    ensures Acyclic(Vocabulary.subclassMap)
    ensures StripMemberValue(Vocabulary, SanitizeReserved, key, Str(s)) == Str(s)
  {
    VocabularyAcyclic();
    assert TypeTag(Str(s)).None?;
    assert StripValue(Vocabulary, SanitizeReserved, Str(s)) == StripItem(Vocabulary, SanitizeReserved, Str(s));
  }

  /** On a `HowTo` node, cleaning removes a key that is neither reserved nor allowed. */
  lemma HowToDrops(v: Value, k: string)
    requires TypeTag(v) == Some("HowTo") && !Reserved(k) && k !in HowToOwn && k != "name"
    ensures Acyclic(Vocabulary.subclassMap)
    ensures Strip(Vocabulary, v).Obj?
    ensures Lookup(Strip(Vocabulary, v).members, k) == None
  {
    AllowedOfChild("HowTo");
    var allowed := AllowedProps(Vocabulary, "HowTo");
    assert Level(Vocabulary.typeMap, "HowTo") == HowToOwn;
    assert !Kept(allowed, k);
    assert Strip(Vocabulary, v) == Obj(StripMembers(Vocabulary, SanitizeReserved, allowed, v.members));
    StripLookup(Vocabulary, SanitizeReserved, allowed, v.members, k);
  }

  /** On a `HowTo` node, cleaning keeps the first plain string under `name`. */
  lemma HowToKeepsName(v: Value, s: string)
    requires TypeTag(v) == Some("HowTo") && Lookup(v.members, "name") == Some(Str(s))
    ensures Acyclic(Vocabulary.subclassMap)
    ensures Strip(Vocabulary, v).Obj?
    ensures Lookup(Strip(Vocabulary, v).members, "name") == Some(Str(s))
  {
    HowToInherits();
    var allowed := AllowedProps(Vocabulary, "HowTo");
    assert Strip(Vocabulary, v) == Obj(StripMembers(Vocabulary, SanitizeReserved, allowed, v.members));
    StripLookup(Vocabulary, SanitizeReserved, allowed, v.members, "name");
    StringKept("name", s);
  }

  lemma MessyFacts()
    ensures TypeTag(Messy) == Some("HowTo")
    ensures Lookup(Messy.members, "name") == Some(Str("Make Tea"))
    ensures "invalidProperty" !in HowToOwn
  {
    var ms := Messy.members;
    assert ms[0].key != "name" && ms[1].key == "name";
    assert ms[1..][0] == ms[1];
  }

  /** Cleaning drops the undeclared key. */
  lemma MessyLosesUndeclared()
    ensures Acyclic(Vocabulary.subclassMap)
    ensures Strip(Vocabulary, Messy).Obj?
    ensures Lookup(Strip(Vocabulary, Messy).members, "invalidProperty") == None
  {
    MessyFacts();
    HowToDrops(Messy, "invalidProperty");
  }

  /** Cleaning keeps the declared key with its value, and the type. */
  lemma MessyKeepsDeclared()
    ensures Acyclic(Vocabulary.subclassMap)
    ensures Strip(Vocabulary, Messy).Obj?
    ensures Lookup(Strip(Vocabulary, Messy).members, "name") == Some(Str("Make Tea"))
    ensures TypeTag(Strip(Vocabulary, Messy)) == Some("HowTo")
  {
    MessyFacts();
    HowToKeepsName(Messy, "Make Tea");
    StripPreservesTag(Vocabulary, SanitizeReserved, Messy);
  }
}
