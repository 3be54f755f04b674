/**
 * The pass over the `@graph` nodes of the vocabulary that fills the subclass
 * table and the property table (`scripts/build-type-map.js`).
 *
 * `ItemStep` and `BuildFrom` specify the pass; `TableBuilder` is the pass
 * itself, two dictionaries updated in place node by node.  A node on which
 * the script would throw (a `TypeError` from reading a member of `null` or
 * calling `replace` on a non-string) ends the run before anything is
 * written, so the specification maps the whole graph to `None`.
 */
module TypeMapBuilder {
  import opened Json
  import opened Hierarchy

  // ---------------------------------------------------------------------
  // `s.replace('schema:', '')`
  // ---------------------------------------------------------------------

  predicate OccursAt(s: string, i: int)
  {
    0 <= i && i + 7 <= |s| && s[i..i + 7] == "schema:"
  }

  /** Removes the first occurrence of `schema:`, wherever it is. */
  function StripSchema(s: string): (r: string)
    ensures |r| == |s| || |r| == |s| - 7
  {
    if |s| < 7 then s
    else if s[..7] == "schema:" then s[7..]
    else [s[0]] + StripSchema(s[1..])
  }

  lemma OccursAtTail(s: string, i: nat)
    requires |s| > 0
    ensures OccursAt(s, i + 1) <==> OccursAt(s[1..], i)
  {
    if i + 1 + 7 <= |s| {
      assert s[i + 1..i + 1 + 7] == s[1..][i..i + 7];
    }
  }

  /** Without an occurrence of `schema:`, the string is left as it is. */
  lemma {:induction false} StripSchemaNoOccurrence(s: string)
    requires forall i :: !OccursAt(s, i)
    ensures StripSchema(s) == s
  {
    if |s| >= 7 {
      assert !OccursAt(s, 0);
      forall i: nat ensures !OccursAt(s[1..], i) {
        OccursAtTail(s, i);
      }
      StripSchemaNoOccurrence(s[1..]);
      assert s == [s[0]] + s[1..];
    }
  }

  /** Without an occurrence at the start, the first character is kept. */
  lemma StripSchemaKeepsHead(s: string)
    requires |s| >= 7 && !OccursAt(s, 0)
    ensures StripSchema(s) == [s[0]] + StripSchema(s[1..])
  {
    assert s[..7] == s[0..7];
  }

  lemma CutTail(s: string, i: nat)
    requires 0 < i && i + 7 <= |s|
    ensures s[..i] + s[i + 7..] == [s[0]] + (s[1..][..i - 1] + s[1..][i - 1 + 7..])
  {
    assert s[..i] == [s[0]] + s[1..][..i - 1];
    assert s[i + 7..] == s[1..][i - 1 + 7..];
  }

  /** Otherwise exactly the first occurrence is cut out. */
  lemma {:induction false} StripSchemaFirstOccurrence(s: string, i: nat)
    requires OccursAt(s, i)
    requires forall j :: 0 <= j < i ==> !OccursAt(s, j)
    ensures StripSchema(s) == s[..i] + s[i + 7..]
  {
    if i > 0 {
      var t := s[1..];
      OccursAtTail(s, i - 1);
      forall j: nat | j < i - 1 ensures !OccursAt(t, j) {
        OccursAtTail(s, j);
      }
      StripSchemaFirstOccurrence(t, i - 1);
      StripSchemaKeepsHead(s);
      CutTail(s, i);
    }
  }

  lemma StripSchemaPrefix()
    ensures StripSchema("schema:Thing") == "Thing"
  {
  }

  /** Only the first occurrence goes. */
  lemma StripSchemaOnce()
    ensures StripSchema("schema:schema:x") == "schema:x"
  {
  }

  /** The occurrence need not be at the start. */
  lemma StripSchemaInside()
    ensures StripSchema("a:schema:b") == "a:b"
  {
    assert OccursAt("a:schema:b", 2);
    assert !OccursAt("a:schema:b", 0) && !OccursAt("a:schema:b", 1);
    StripSchemaFirstOccurrence("a:schema:b", 2);
  }

  // ---------------------------------------------------------------------
  // Reading a node
  // ---------------------------------------------------------------------

  /** `v['@id'].replace('schema:', '')`; `None` where the script would throw. */
  function IdName(v: Value): (r: Option<string>)
    ensures r.Some? <==> Get(v, "@id").Some? && Get(v, "@id").value.Str?
  {
    match Get(v, "@id")
    case Some(Str(s)) => Some(StripSchema(s))
    case _ => None
  }

  /** `a || b` */
  function Or(a: Option<Value>, b: Option<Value>): Option<Value>
  {
    if Truthy(a) then a else b
  }

  /** A truthy value as a list (an array as it is, anything else as one element); a falsy one as the empty list. */
  function AsList(v: Option<Value>): seq<Value>
  {
    if !Truthy(v) then [] else if v.value.Arr? then v.value.items else [v.value]
  }

  function Parents(item: Value): seq<Value>
  {
    AsList(Get(item, "rdfs:subClassOf"))
  }

  /** `typeof parent === 'object' && parent['@id']`, for a parent that is not `null`. */
  predicate NamesParent(p: Value)
  {
    p.Obj? && Truthy(Get(p, "@id"))
  }

  predicate IsProperty(item: Value)
  {
    Get(item, "@type") == Some(Str("rdf:Property"))
  }

  function Domains(item: Value): seq<Value>
  {
    AsList(Or(Get(item, "http://schema.org/domainIncludes"), Get(item, "schema:domainIncludes")))
  }

  function Ranges(item: Value): seq<Value>
  {
    AsList(Or(Get(item, "http://schema.org/rangeIncludes"), Get(item, "schema:rangeIncludes")))
  }

  predicate AllNamed(vs: seq<Value>)
  {
    forall i :: 0 <= i < |vs| ==> IdName(vs[i]).Some?
  }

  /** The stripped `@id`s of a list of references, in order. */
  function Names(vs: seq<Value>): (r: seq<string>)
    requires AllNamed(vs)
    ensures |r| == |vs| && forall i :: 0 <= i < |vs| ==> Some(r[i]) == IdName(vs[i])
  {
    seq(|vs|, i requires 0 <= i < |vs| => IdName(vs[i]).value)
  }

  /** No parent is `null`; a parent naming an `@id` has a string one, and so has the node. */
  predicate ParentsOk(item: Value)
  {
    forall p :: p in Parents(item) ==> !p.Null? && (NamesParent(p) ==> IdName(p).Some? && IdName(item).Some?)
  }

  /** A property with domains has a string `@id`, and so has every domain and every range. */
  predicate PropertyOk(item: Value)
  {
    IsProperty(item) && Domains(item) != [] ==>
      IdName(item).Some? && AllNamed(Domains(item)) && AllNamed(Ranges(item))
  }

  /** The script gets through this node without throwing. */
  predicate ItemOk(item: Value)
  {
    !item.Null? && ParentsOk(item) && PropertyOk(item)
  }

  // ---------------------------------------------------------------------
  // Specification of the pass
  // ---------------------------------------------------------------------

  /** Each parent naming an `@id` sets the node's parent, in list order. */
  function SubclassAfter(sub: SubclassMap, child: string, parents: seq<Value>): SubclassMap
    requires forall p :: p in parents && NamesParent(p) ==> IdName(p).Some?
  {
    if parents == [] then sub else
      var s := SubclassAfter(sub, child, parents[..|parents| - 1]);
      var p := parents[|parents| - 1];
      if NamesParent(p) then s[child := IdName(p).value] else s
  }

  /** Each domain, in list order, gets `key` with the range list; a missing domain table is created empty first. */
  function TypeMapAfter(tm: TypeMap, key: string, domains: seq<string>, ranges: seq<string>): TypeMap
  {
    if domains == [] then tm else
      var t := TypeMapAfter(tm, key, domains[..|domains| - 1], ranges);
      var d := domains[|domains| - 1];
      t[d := Level(t, d)[key := ranges]]
  }

  /** The node's own stripped `@id`; only read when some parent or domain needs it. */
  function ChildName(item: Value): string
  {
    if IdName(item).Some? then IdName(item).value else ""
  }

  /** One node of the graph. */
  function ItemStep(tables: Ontology, item: Value): Option<Ontology>
  {
    if !ItemOk(item) then None
    else
      var sub := SubclassAfter(tables.subclassMap, ChildName(item), Parents(item));
      var tm := if IsProperty(item) && Domains(item) != []
        then TypeMapAfter(tables.typeMap, ChildName(item), Names(Domains(item)), Names(Ranges(item)))
        else tables.typeMap;
      Some(Ontology(sub, tm))
  }

  /** The nodes in order; the first one that throws ends the run. */
  function BuildFrom(tables: Ontology, graph: seq<Value>): Option<Ontology>
  {
    if graph == [] then Some(tables)
    else match BuildFrom(tables, graph[..|graph| - 1])
      case None => None
      case Some(t) => ItemStep(t, graph[|graph| - 1])
  }

  // ---------------------------------------------------------------------
  // The pass, updating the two tables in place
  // ---------------------------------------------------------------------

  class TableBuilder {
    var subclassMap: SubclassMap
    var typeMap: TypeMap

    constructor ()
      ensures subclassMap == map[] && typeMap == map[]
    {
      subclassMap := map[];
      typeMap := map[];
    }

    function Contents(): Ontology
      reads this
    {
      Ontology(subclassMap, typeMap)
    }

    /** The body of `graph.forEach`; `false`, with nothing changed, where the script would throw. */
    method AddItem(item: Value) returns (ok: bool)
      modifies this
      ensures ok <==> ItemOk(item)
      ensures ok ==> Some(Contents()) == ItemStep(old(Contents()), item)
      ensures !ok ==> Contents() == old(Contents())
    {
      if !ItemOk(item) {
        return false;
      }
      AddParents(item);
      AddProperty(item);
      ok := true;
    }

    /** `rdfs:subClassOf`: each parent naming an `@id` overwrites the node's entry. */
    method AddParents(item: Value)
      requires ParentsOk(item)
      modifies this
      ensures subclassMap == SubclassAfter(old(subclassMap), ChildName(item), Parents(item))
      ensures typeMap == old(typeMap)
    {
      var parents := Parents(item);
      if !Truthy(Get(item, "rdfs:subClassOf")) {
        return;
      }
      for i := 0 to |parents|
        invariant subclassMap == SubclassAfter(old(subclassMap), ChildName(item), parents[..i])
        invariant typeMap == old(typeMap)
      {
        assert parents[..i + 1][..i] == parents[..i];
        var parent := parents[i];
        assert parent in parents;
        if NamesParent(parent) {
          subclassMap := subclassMap[IdName(item).value := IdName(parent).value];
        }
      }
      assert parents[..|parents|] == parents;
    }

    /** `rdf:Property`: each domain gets the property with its range list. */
    method AddProperty(item: Value)
      requires PropertyOk(item)
      modifies this
      ensures typeMap == if IsProperty(item) && Domains(item) != []
        then TypeMapAfter(old(typeMap), ChildName(item), Names(Domains(item)), Names(Ranges(item)))
        else old(typeMap)
      ensures subclassMap == old(subclassMap)
    {
      if !IsProperty(item) {
        return;
      }
      var domains := Domains(item);
      if |domains| == 0 {
        return;
      }
      AddToDomains(IdName(item).value, Names(domains), Names(Ranges(item)));
    }

    /** The loop over the domains, creating a domain's table when it is missing. */
    method AddToDomains(key: string, domains: seq<string>, rangeNames: seq<string>)
      modifies this
      ensures typeMap == TypeMapAfter(old(typeMap), key, domains, rangeNames)
      ensures subclassMap == old(subclassMap)
    {
      for i := 0 to |domains|
        invariant typeMap == TypeMapAfter(old(typeMap), key, domains[..i], rangeNames)
        invariant subclassMap == old(subclassMap)
      {
        assert domains[..i + 1][..i] == domains[..i];
        var domainName := domains[i];
        if domainName !in typeMap {
          typeMap := typeMap[domainName := map[]];
        }
        typeMap := typeMap[domainName := typeMap[domainName][key := rangeNames]];
      }
      assert domains[..|domains|] == domains;
    }

    /** `graph.forEach(...)` over the whole graph, ending at the first node that throws. */
    method AddGraph(graph: seq<Value>) returns (ok: bool)
      modifies this
      ensures ok <==> BuildFrom(old(Contents()), graph).Some?
      ensures ok ==> Contents() == BuildFrom(old(Contents()), graph).value
    {
      ghost var start := Contents();
      for i := 0 to |graph|
        invariant BuildFrom(start, graph[..i]) == Some(Contents())
      {
        assert graph[..i + 1][..i] == graph[..i];
        ok := AddItem(graph[i]);
        if !ok {
          BuildFromStops(start, graph, i + 1);
          return false;
        }
      }
      assert graph[..|graph|] == graph;
      ok := true;
    }
  }

  /** Once a node throws, so does every longer run. */
  lemma {:induction false} BuildFromStops(start: Ontology, graph: seq<Value>, n: nat)
    requires n <= |graph|
    requires BuildFrom(start, graph[..n]).None?
    ensures BuildFrom(start, graph).None?
    decreases |graph| - n
  {
    if n < |graph| {
      assert graph[..n + 1][..n] == graph[..n];
      BuildFromStops(start, graph, n + 1);
    } else {
      assert graph[..n] == graph;
    }
  }

  // ---------------------------------------------------------------------
  // Overwrite rules
  // ---------------------------------------------------------------------

  /** Without a parent naming an `@id`, the subclass table is left as it is. */
  lemma {:induction false} SubclassNoParent(sub: SubclassMap, child: string, parents: seq<Value>)
    requires forall p :: p in parents && NamesParent(p) ==> IdName(p).Some?
    requires forall i :: 0 <= i < |parents| ==> !NamesParent(parents[i])
    ensures SubclassAfter(sub, child, parents) == sub
  {
    if parents != [] {
      SubclassNoParent(sub, child, parents[..|parents| - 1]);
    }
  }

  /** With several parents naming an `@id`, the last one is the node's parent; no other entry changes. */
  lemma {:induction false} SubclassLastParentWins(sub: SubclassMap, child: string, parents: seq<Value>, j: nat)
    requires forall p :: p in parents && NamesParent(p) ==> IdName(p).Some?
    requires j < |parents| && NamesParent(parents[j])
    requires forall i :: j < i < |parents| ==> !NamesParent(parents[i])
    ensures IdName(parents[j]).Some?
    ensures SubclassAfter(sub, child, parents) == sub[child := IdName(parents[j]).value]
  {
    assert parents[j] in parents;
    var init := parents[..|parents| - 1];
    if j == |parents| - 1 {
      SubclassAfterKeys(sub, child, init);
    } else {
      SubclassLastParentWins(sub, child, init, j);
    }
  }

  /** Whatever the parents, only the child's entry can change. */
  lemma {:induction false} SubclassAfterKeys(sub: SubclassMap, child: string, parents: seq<Value>)
    requires forall p :: p in parents && NamesParent(p) ==> IdName(p).Some?
    ensures forall k :: k != child ==> (k in SubclassAfter(sub, child, parents) <==> k in sub)
    ensures forall k :: k != child && k in sub ==> SubclassAfter(sub, child, parents)[k] == sub[k]
  {
    if parents != [] {
      SubclassAfterKeys(sub, child, parents[..|parents| - 1]);
    }
  }

  /**
   * Each listed domain ends up with `key` mapped to the range list, beside
   * the properties it already had; every other domain is left as it is.
   */
  lemma {:induction false} TypeMapAfterSpec(tm: TypeMap, key: string, domains: seq<string>, ranges: seq<string>)
    ensures forall d :: d in TypeMapAfter(tm, key, domains, ranges) <==> d in tm || d in domains
    ensures forall d :: d in domains ==> TypeMapAfter(tm, key, domains, ranges)[d] == Level(tm, d)[key := ranges]
    ensures forall d :: d in tm && d !in domains ==> TypeMapAfter(tm, key, domains, ranges)[d] == tm[d]
  {
    if domains != [] {
      var init := domains[..|domains| - 1];
      TypeMapAfterSpec(tm, key, init, ranges);
      assert domains == init + [domains[|domains| - 1]];
    }
  }

  /** A node changes the subclass table only through its last parent naming an `@id`. */
  lemma ItemStepSubclass(t: Ontology, item: Value)
    requires ItemOk(item)
    ensures (forall i :: 0 <= i < |Parents(item)| ==> !NamesParent(Parents(item)[i])) ==>
      ItemStep(t, item).value.subclassMap == t.subclassMap
    ensures forall j ::
      (0 <= j < |Parents(item)| && NamesParent(Parents(item)[j])
       && forall i :: j < i < |Parents(item)| ==> !NamesParent(Parents(item)[i]))
      ==>
      (IdName(item).Some? && IdName(Parents(item)[j]).Some?
       && ItemStep(t, item).value.subclassMap == t.subclassMap[IdName(item).value := IdName(Parents(item)[j]).value])
  {
    var parents := Parents(item);
    if forall i :: 0 <= i < |parents| ==> !NamesParent(parents[i]) {
      SubclassNoParent(t.subclassMap, ChildName(item), parents);
    }
    forall j | 0 <= j < |parents| && NamesParent(parents[j]) && (forall i :: j < i < |parents| ==> !NamesParent(parents[i]))
      ensures IdName(item).Some? && IdName(parents[j]).Some?
      ensures ItemStep(t, item).value.subclassMap == t.subclassMap[IdName(item).value := IdName(parents[j]).value]
    {
      assert parents[j] in parents;
      SubclassLastParentWins(t.subclassMap, ChildName(item), parents, j);
    }
  }

  /**
   * Only `rdf:Property` nodes with domains change the property table; such
   * a node sets, in every domain it names, its own stripped `@id` to its
   * stripped ranges (the empty list when it names none), and changes
   * nothing else.
   */
  lemma ItemStepTypeMap(t: Ontology, item: Value)
    requires ItemOk(item)
    ensures !(IsProperty(item) && Domains(item) != []) ==> ItemStep(t, item).value.typeMap == t.typeMap
    ensures IsProperty(item) && Domains(item) != [] ==>
      var r := ItemStep(t, item).value.typeMap;
      var key, domains, ranges := IdName(item).value, Names(Domains(item)), Names(Ranges(item));
      && (Ranges(item) == [] ==> ranges == [])
      && (forall d :: d in r <==> d in t.typeMap || d in domains)
      && (forall d :: d in domains ==> key in r[d] && r[d][key] == ranges)
      && (forall d, k :: d in domains && k in Level(t.typeMap, d) && k != key ==> k in r[d] && r[d][k] == t.typeMap[d][k])
      && (forall d :: d in t.typeMap && d !in domains ==> r[d] == t.typeMap[d])
  {
    if IsProperty(item) && Domains(item) != [] {
      TypeMapAfterSpec(t.typeMap, IdName(item).value, Names(Domains(item)), Names(Ranges(item)));
    }
  }

  /** A node with neither a truthy `rdfs:subClassOf` nor the property type changes nothing. */
  lemma UnmatchedItemUnchanged(t: Ontology, item: Value)
    requires ItemOk(item)
    requires !Truthy(Get(item, "rdfs:subClassOf")) && !IsProperty(item)
    ensures ItemStep(t, item) == Some(t)
  {
    ItemStepSubclass(t, item);
  }

  /**
   * Adding a property whose earlier declarations, if any, carry the same
   * ranges keeps a table in which every declaration of a property agrees,
   * the case where the precedence of the merge cannot be observed.
   */
  lemma TypeMapAfterConsistent(tm: TypeMap, key: string, domains: seq<string>, ranges: seq<string>)
    requires RangesConsistent(tm)
    requires forall d :: d in tm && key in tm[d] ==> tm[d][key] == ranges
    ensures RangesConsistent(TypeMapAfter(tm, key, domains, ranges))
  {
    var r := TypeMapAfter(tm, key, domains, ranges);
    TypeMapAfterSpec(tm, key, domains, ranges);
    forall a, b, k | a in r && b in r && k in r[a] && k in r[b] ensures r[a][k] == r[b][k] {
      if k != key {
        assert a in tm && k in tm[a] && r[a][k] == tm[a][k];
        assert b in tm && k in tm[b] && r[b][k] == tm[b][k];
      }
    }
  }
}
