/**
 * The ontology tables and the queries the validator asks of them: the parent
 * chain of a type (`getAllSuperClasses`), subtype compatibility
 * (`isTypeOrSubtype`) and the merged map of properties a type may carry.
 */
module Hierarchy {

  /** type -> its single parent type */
  type SubclassMap = map<string, string>
  /** property -> ordered list of acceptable value types */
  type PropertyMap = map<string, seq<string>>
  /** type -> the properties declared directly on it */
  type TypeMap = map<string, PropertyMap>

  datatype Ontology = Ontology(subclassMap: SubclassMap, typeMap: TypeMap)

  // ---------------------------------------------------------------------
  // Parent chains
  // ---------------------------------------------------------------------

  /** `subclassMap[t]` is truthy: there is an entry and it is not "". */
  predicate HasParent(sub: SubclassMap, t: string)
  {
    t in sub && sub[t] != ""
  }

  /** Following parent links from `t` reaches a root in at most `n` steps. */
  predicate ReachesRoot(sub: SubclassMap, t: string, n: nat)
    decreases n
  {
    !HasParent(sub, t) || (n > 0 && ReachesRoot(sub, sub[t], n - 1))
  }

  /**
   * No parent chain loops.  A chain that does not repeat a type visits at
   * most |sub| types that have a parent, so |sub| steps always suffice.
   */
  ghost predicate Acyclic(sub: SubclassMap)
  {
    forall t :: ReachesRoot(sub, t, |sub|)
  }

  /** The parent chain of `t`, nearest first, with `n` steps of fuel. */
  function Chain(sub: SubclassMap, t: string, n: nat): (r: seq<string>)
    requires ReachesRoot(sub, t, n)
    ensures |r| <= n
    decreases n
  {
    if HasParent(sub, t) then [sub[t]] + Chain(sub, sub[t], n - 1) else []
  }

  /** All ancestors of `t`, nearest first, `t` itself excluded. */
  function Ancestors(sub: SubclassMap, t: string): seq<string>
    requires Acyclic(sub)
  {
    Chain(sub, t, |sub|)
  }

  /** The type whose parent position `i` of chain `s` (starting at `t`) holds. */
  function Before(t: string, s: seq<string>, i: nat): string
    requires i <= |s|
  {
    if i == 0 then t else s[i - 1]
  }

  /**
   * `s` is the parent chain of `t`: element 0 is the parent of `t`, each
   * further element is the parent of the one before, and the last element
   * (or `t`, when `s` is empty) has no parent.
   */
  ghost predicate IsParentChain(sub: SubclassMap, t: string, s: seq<string>)
  {
    && (forall i :: 0 <= i < |s| ==> HasParent(sub, Before(t, s, i)) && s[i] == sub[Before(t, s, i)])
    && !HasParent(sub, Before(t, s, |s|))
  }

  lemma {:induction false} ReachesRootMono(sub: SubclassMap, t: string, n: nat, m: nat)
    requires ReachesRoot(sub, t, n) && n <= m
    ensures ReachesRoot(sub, t, m)
    decreases n
  {
    if HasParent(sub, t) {
      ReachesRootMono(sub, sub[t], n - 1, m - 1);
    }
  }

  /** The fuel does not change the chain, as long as there is enough of it. */
  lemma {:induction false} ChainFuel(sub: SubclassMap, t: string, n: nat, m: nat)
    requires ReachesRoot(sub, t, n) && ReachesRoot(sub, t, m)
    ensures Chain(sub, t, n) == Chain(sub, t, m)
    decreases n
  {
    if HasParent(sub, t) {
      ChainFuel(sub, sub[t], n - 1, m - 1);
    }
  }

  lemma {:induction false} ChainIsParentChain(sub: SubclassMap, t: string, n: nat)
    requires ReachesRoot(sub, t, n)
    ensures IsParentChain(sub, t, Chain(sub, t, n))
    decreases n
  {
    var s := Chain(sub, t, n);
    if HasParent(sub, t) {
      var p := sub[t];
      var rest := Chain(sub, p, n - 1);
      ChainIsParentChain(sub, p, n - 1);
      assert s == [p] + rest;
      forall i | 0 <= i < |s|
        ensures HasParent(sub, Before(t, s, i)) && s[i] == sub[Before(t, s, i)]
      {
        if i > 0 {
          assert Before(t, s, i) == Before(p, rest, i - 1);
          assert s[i] == rest[i - 1];
        } else {
          assert Before(t, s, 0) == t && s[0] == p;
        }
      }
      assert Before(t, s, |s|) == Before(p, rest, |rest|);
    }
  }

  lemma {:induction false} ParentChainIsChain(sub: SubclassMap, t: string, s: seq<string>, n: nat)
    requires ReachesRoot(sub, t, n) && IsParentChain(sub, t, s)
    ensures s == Chain(sub, t, n)
    decreases n
  {
    if s != [] {
      assert Before(t, s, 0) == t;
      var p := sub[t];
      var rest := s[1..];
      forall i | 0 <= i < |rest|
        ensures HasParent(sub, Before(p, rest, i)) && rest[i] == sub[Before(p, rest, i)]
      {
        assert Before(p, rest, i) == Before(t, s, i + 1);
      }
      assert Before(p, rest, |rest|) == Before(t, s, |s|);
      ParentChainIsChain(sub, p, rest, n - 1);
      assert s == [p] + rest;
    } else {
      assert Before(t, s, 0) == t;
    }
  }

  /**
   * getAllSuperClasses returns exactly the parent chain: nearest first, each
   * element the parent of the previous one, ending at a root; and it is the
   * only sequence with that property.
   */
  lemma AncestorsAreParentChain(sub: SubclassMap, t: string, s: seq<string>)
    requires Acyclic(sub)
    ensures IsParentChain(sub, t, Ancestors(sub, t))
    ensures IsParentChain(sub, t, s) ==> s == Ancestors(sub, t)
  {
    ChainIsParentChain(sub, t, |sub|);
    if IsParentChain(sub, t, s) {
      ParentChainIsChain(sub, t, s, |sub|);
    }
  }

  /** Past position `k`, a chain is the chain of its `k`-th element. */
  lemma {:induction false} ChainSuffix(sub: SubclassMap, t: string, n: nat, k: nat)
    requires ReachesRoot(sub, t, n) && k < |Chain(sub, t, n)|
    ensures k + 1 <= n
    ensures ReachesRoot(sub, Chain(sub, t, n)[k], n - k - 1)
    ensures Chain(sub, Chain(sub, t, n)[k], n - k - 1) == Chain(sub, t, n)[k + 1..]
    decreases k
  {
    var p := sub[t];
    var s := Chain(sub, t, n);
    assert s == [p] + Chain(sub, p, n - 1);
    if k > 0 {
      ChainSuffix(sub, p, n - 1, k - 1);
    }
  }

  /** The ancestors of an ancestor are the rest of the chain. */
  lemma AncestorsSuffix(sub: SubclassMap, t: string, k: nat)
    requires Acyclic(sub) && k < |Ancestors(sub, t)|
    ensures Ancestors(sub, Ancestors(sub, t)[k]) == Ancestors(sub, t)[k + 1..]
  {
    var u := Ancestors(sub, t)[k];
    ChainSuffix(sub, t, |sub|, k);
    ChainFuel(sub, u, |sub| - k - 1, |sub|);
  }

  /** On an acyclic map, no type is its own ancestor. */
  lemma AncestorsExcludeSelf(sub: SubclassMap, t: string)
    requires Acyclic(sub)
    ensures t !in Ancestors(sub, t)
  {
    var s := Ancestors(sub, t);
    if t in s {
      var k :| 0 <= k < |s| && s[k] == t;
      AncestorsSuffix(sub, t, k);
      assert false;
    }
  }

  /** The loop of getAllSuperClasses. */
  method GetAllSuperClasses(sub: SubclassMap, t: string) returns (supers: seq<string>)
    requires Acyclic(sub)
    ensures supers == Ancestors(sub, t)
    ensures IsParentChain(sub, t, supers)
  {
    supers := [];
    var current := t;
    ghost var fuel: nat := |sub|;
    while HasParent(sub, current)
      invariant ReachesRoot(sub, current, fuel)
      invariant Ancestors(sub, t) == supers + Chain(sub, current, fuel)
      decreases fuel
    {
      current := sub[current];
      supers := supers + [current];
      fuel := fuel - 1;
    }
    AncestorsAreParentChain(sub, t, supers);
  }

  // ---------------------------------------------------------------------
  // Subtype compatibility
  // ---------------------------------------------------------------------

  /** `actual` is in `expected`, or one of its ancestors is. */
  function IsTypeOrSubtype(sub: SubclassMap, actual: string, expected: seq<string>): bool
    requires Acyclic(sub)
  {
    actual in expected || (var supers := Ancestors(sub, actual); exists e :: e in expected && e in supers)
  }

  /** Following `k` parent links from `a` arrives at `b`. */
  ghost predicate ReachesIn(sub: SubclassMap, a: string, b: string, k: nat)
    decreases k
  {
    if k == 0 then a == b else HasParent(sub, a) && ReachesIn(sub, sub[a], b, k - 1)
  }

  /**
   * `a` is `b` or lies below it: a reflexive-transitive closure of the
   * parent link, stated without the chain that `isTypeOrSubtype` builds.
   */
  ghost predicate SubtypeOf(sub: SubclassMap, a: string, b: string)
  {
    exists k: nat :: ReachesIn(sub, a, b, k)
  }

  /** The fuelled chain holds exactly the types reachable in one or more steps. */
  lemma {:induction false} ChainReaches(sub: SubclassMap, t: string, n: nat, b: string)
    requires ReachesRoot(sub, t, n)
    ensures b in Chain(sub, t, n) <==> exists k: nat :: k > 0 && ReachesIn(sub, t, b, k)
    decreases n
  {
    if HasParent(sub, t) {
      var p := sub[t];
      ChainReaches(sub, p, n - 1, b);
      assert Chain(sub, t, n) == [p] + Chain(sub, p, n - 1);
      if b in Chain(sub, t, n) {
        if b == p {
          assert ReachesIn(sub, p, b, 0);
          assert ReachesIn(sub, t, b, 1);
        } else {
          var k: nat :| k > 0 && ReachesIn(sub, p, b, k);
          assert ReachesIn(sub, t, b, k + 1);
        }
        assert exists i: nat :: i > 0 && ReachesIn(sub, t, b, i);
      }
      if exists k: nat :: k > 0 && ReachesIn(sub, t, b, k) {
        var k: nat :| k > 0 && ReachesIn(sub, t, b, k);
        assert ReachesIn(sub, p, b, k - 1);
        if k - 1 == 0 {
          assert b == p;
        } else {
          var j: nat := k - 1;
          assert j > 0 && ReachesIn(sub, p, b, j);
          assert exists i: nat :: i > 0 && ReachesIn(sub, p, b, i);
          assert b in Chain(sub, p, n - 1);
        }
        assert b in Chain(sub, t, n);
      }
    } else {
      forall k: nat | k > 0
        ensures !ReachesIn(sub, t, b, k)
      {
      }
    }
  }

  /** Under acyclicity, `b` is reachable from `a` exactly when it is `a` or one of its ancestors. */
  lemma SubtypeOfIff(sub: SubclassMap, a: string, b: string)
    requires Acyclic(sub)
    ensures SubtypeOf(sub, a, b) <==> a == b || b in Ancestors(sub, a)
  {
    ChainReaches(sub, a, |sub|, b);
    if a == b {
      assert ReachesIn(sub, a, b, 0);
    }
    if SubtypeOf(sub, a, b) && a != b {
      var k: nat :| ReachesIn(sub, a, b, k);
      assert exists i: nat :: i > 0 && ReachesIn(sub, a, b, i);
    }
  }

  lemma SubtypeIff(sub: SubclassMap, a: string, expected: seq<string>)
    requires Acyclic(sub)
    ensures IsTypeOrSubtype(sub, a, expected) <==> exists e :: e in expected && SubtypeOf(sub, a, e)
  {
    if IsTypeOrSubtype(sub, a, expected) {
      if a in expected {
        SubtypeOfIff(sub, a, a);
      } else {
        var e :| e in expected && e in Ancestors(sub, a);
        SubtypeOfIff(sub, a, e);
      }
    }
    if exists e :: e in expected && SubtypeOf(sub, a, e) {
      var e :| e in expected && SubtypeOf(sub, a, e);
      SubtypeOfIff(sub, a, e);
    }
  }

  /** Every type is compatible with itself and with each of its ancestors. */
  lemma SubtypeOfAncestors(sub: SubclassMap, a: string)
    requires Acyclic(sub)
    ensures SubtypeOf(sub, a, a)
    ensures forall k :: 0 <= k < |Ancestors(sub, a)| ==> SubtypeOf(sub, a, Ancestors(sub, a)[k])
  {
    SubtypeOfIff(sub, a, a);
    forall k | 0 <= k < |Ancestors(sub, a)|
      ensures SubtypeOf(sub, a, Ancestors(sub, a)[k])
    {
      SubtypeOfIff(sub, a, Ancestors(sub, a)[k]);
    }
  }

  /** Compatibility is transitive ... */
  lemma SubtypeTransitive(sub: SubclassMap, a: string, b: string, expected: seq<string>)
    requires Acyclic(sub)
    requires SubtypeOf(sub, a, b) && IsTypeOrSubtype(sub, b, expected)
    ensures IsTypeOrSubtype(sub, a, expected)
  {
    SubtypeOfIff(sub, a, b);
    if a != b {
      var s := Ancestors(sub, a);
      assert b in s;
      var k :| 0 <= k < |s| && s[k] == b;
      AncestorsSuffix(sub, a, k);
      if b in expected {
        assert b in expected && b in s;
      } else {
        var e :| e in expected && e in Ancestors(sub, b);
        assert e in s;
      }
    }
  }

  /** ... and antisymmetric, so the hierarchy is a partial order. */
  lemma SubtypeAntisymmetric(sub: SubclassMap, a: string, b: string)
    requires Acyclic(sub)
    requires SubtypeOf(sub, a, b) && SubtypeOf(sub, b, a)
    ensures a == b
  {
    SubtypeOfIff(sub, a, b);
    SubtypeOfIff(sub, b, a);
    if a != b {
      var s := Ancestors(sub, a);
      assert b in s && a in Ancestors(sub, b);
      var k :| 0 <= k < |s| && s[k] == b;
      AncestorsSuffix(sub, a, k);
      assert a in s;
      AncestorsExcludeSelf(sub, a);
    }
  }

  // ---------------------------------------------------------------------
  // Allowed properties
  // ---------------------------------------------------------------------

  /** `typeMap[t] || {}` */
  function Level(tm: TypeMap, t: string): PropertyMap
  {
    if t in tm then tm[t] else map[]
  }

  /**
   * `Object.assign({}, ...ts.map(t => typeMap[t] || {}))`: each level is
   * copied over the result of the ones before it.
   */
  function Assign(tm: TypeMap, ts: seq<string>): PropertyMap
    decreases |ts|
  {
    if ts == [] then map[] else Assign(tm, ts[..|ts| - 1]) + Level(tm, ts[|ts| - 1])
  }

  /** The merged property map of `t`: over `[t] ++ ancestors(t)`, as the source merges it. */
  function AllowedProps(o: Ontology, t: string): PropertyMap
    requires Acyclic(o.subclassMap)
  {
    Assign(o.typeMap, [t] + Ancestors(o.subclassMap, t))
  }

  /** A type with a single ancestor: the ancestor's level is copied over the type's own. */
  lemma AllowedPropsOneAncestor(o: Ontology, t: string, p: string)
    requires Acyclic(o.subclassMap) && Ancestors(o.subclassMap, t) == [p]
    ensures AllowedProps(o, t) == Level(o.typeMap, t) + Level(o.typeMap, p)
  {
    var ts := [t] + Ancestors(o.subclassMap, t);
    assert ts == [t, p] && ts[..1] == [t] && ts[..1][..0] == [];
    assert Assign(o.typeMap, [t]) == map[] + Level(o.typeMap, t) == Level(o.typeMap, t);
    assert Assign(o.typeMap, ts) == Assign(o.typeMap, [t]) + Level(o.typeMap, p);
  }

  /** A property is allowed exactly when some level declares it. */
  lemma {:induction false} AssignKeys(tm: TypeMap, ts: seq<string>, k: string)
    ensures k in Assign(tm, ts) <==> exists i :: 0 <= i < |ts| && k in Level(tm, ts[i])
    decreases |ts|
  {
    if ts != [] {
      var init := ts[..|ts| - 1];
      AssignKeys(tm, init, k);
      if k in Assign(tm, init) {
        var i :| 0 <= i < |init| && k in Level(tm, init[i]);
        assert ts[i] == init[i];
      }
      if exists i :: 0 <= i < |ts| && k in Level(tm, ts[i]) {
        var i :| 0 <= i < |ts| && k in Level(tm, ts[i]);
        if i < |init| {
          assert init[i] == ts[i];
        }
      }
    }
  }

  /**
   * The source's precedence: among the levels declaring `k`, the one LATEST
   * in `ts` supplies the range list, i.e. the farthest ancestor wins.
   */
  lemma {:induction false} AssignLastWins(tm: TypeMap, ts: seq<string>, k: string, j: nat)
    requires j < |ts| && k in Level(tm, ts[j])
    requires forall i :: j < i < |ts| ==> k !in Level(tm, ts[i])
    ensures k in Assign(tm, ts) && Assign(tm, ts)[k] == Level(tm, ts[j])[k]
    decreases |ts|
  {
    var init := ts[..|ts| - 1];
    if j < |ts| - 1 {
      forall i | j < i < |init| ensures k !in Level(tm, init[i]) {
        assert init[i] == ts[i];
      }
      AssignLastWins(tm, init, k, j);
    }
  }

  /** Corrected precedence: the level EARLIEST in `ts` (the most specific type) wins. */
  function Nearest(tm: TypeMap, ts: seq<string>): PropertyMap
    decreases |ts|
  {
    if ts == [] then map[] else Nearest(tm, ts[1..]) + Level(tm, ts[0])
  }

  function NearestAllowedProps(o: Ontology, t: string): PropertyMap
    requires Acyclic(o.subclassMap)
  {
    Nearest(o.typeMap, [t] + Ancestors(o.subclassMap, t))
  }

  lemma {:induction false} NearestFirstWins(tm: TypeMap, ts: seq<string>, k: string, j: nat)
    requires j < |ts| && k in Level(tm, ts[j])
    requires forall i :: 0 <= i < j ==> k !in Level(tm, ts[i])
    ensures k in Nearest(tm, ts) && Nearest(tm, ts)[k] == Level(tm, ts[j])[k]
    decreases |ts|
  {
    if j > 0 {
      forall i | 0 <= i < j - 1 ensures k !in Level(tm, ts[1..][i]) {
        assert ts[1..][i] == ts[i + 1];
      }
      NearestFirstWins(tm, ts[1..], k, j - 1);
    }
  }

  lemma {:induction false} NearestKeys(tm: TypeMap, ts: seq<string>, k: string)
    ensures k in Nearest(tm, ts) <==> exists i :: 0 <= i < |ts| && k in Level(tm, ts[i])
    decreases |ts|
  {
    if ts != [] {
      NearestKeys(tm, ts[1..], k);
      if k in Nearest(tm, ts[1..]) {
        var i :| 0 <= i < |ts[1..]| && k in Level(tm, ts[1..][i]);
        assert ts[i + 1] == ts[1..][i];
      }
      if exists i :: 0 <= i < |ts| && k in Level(tm, ts[i]) {
        var i :| 0 <= i < |ts| && k in Level(tm, ts[i]);
        if i > 0 {
          assert ts[1..][i - 1] == ts[i];
        }
      }
    }
  }

  /**
   * The most specific declaration wins under the corrected merge, and both
   * merges allow the same properties.
   */
  lemma NearestAllowedPropsMostSpecificWins(o: Ontology, t: string, k: string, j: nat)
    requires Acyclic(o.subclassMap)
    requires j < |[t] + Ancestors(o.subclassMap, t)|
    requires k in Level(o.typeMap, ([t] + Ancestors(o.subclassMap, t))[j])
    requires forall i :: 0 <= i < j ==> k !in Level(o.typeMap, ([t] + Ancestors(o.subclassMap, t))[i])
    ensures k in NearestAllowedProps(o, t)
    ensures NearestAllowedProps(o, t)[k] == Level(o.typeMap, ([t] + Ancestors(o.subclassMap, t))[j])[k]
    ensures NearestAllowedProps(o, t).Keys == AllowedProps(o, t).Keys
  {
    var ts := [t] + Ancestors(o.subclassMap, t);
    NearestFirstWins(o.typeMap, ts, k, j);
    forall x ensures x in NearestAllowedProps(o, t) <==> x in AllowedProps(o, t) {
      NearestKeys(o.typeMap, ts, x);
      AssignKeys(o.typeMap, ts, x);
    }
  }

  /**
   * The source's merge: a property is allowed iff `t` or an ancestor declares
   * it, and the declaration from the type farthest up the chain wins.
   */
  lemma AllowedPropsFarthestWins(o: Ontology, t: string, k: string, j: nat)
    requires Acyclic(o.subclassMap)
    requires j < |[t] + Ancestors(o.subclassMap, t)|
    requires k in Level(o.typeMap, ([t] + Ancestors(o.subclassMap, t))[j])
    requires forall i :: j < i < |[t] + Ancestors(o.subclassMap, t)| ==> k !in Level(o.typeMap, ([t] + Ancestors(o.subclassMap, t))[i])
    ensures k in AllowedProps(o, t)
    ensures AllowedProps(o, t)[k] == Level(o.typeMap, ([t] + Ancestors(o.subclassMap, t))[j])[k]
  {
    AssignLastWins(o.typeMap, [t] + Ancestors(o.subclassMap, t), k, j);
  }

  lemma AllowedPropsKeys(o: Ontology, t: string, k: string)
    requires Acyclic(o.subclassMap)
    ensures k in AllowedProps(o, t) <==>
      (k in Level(o.typeMap, t) || exists u :: u in Ancestors(o.subclassMap, t) && k in Level(o.typeMap, u))
  {
    var ts := [t] + Ancestors(o.subclassMap, t);
    assert ts[0] == t;
    AssignKeys(o.typeMap, ts, k);
    if exists u :: u in Ancestors(o.subclassMap, t) && k in Level(o.typeMap, u) {
      var u :| u in Ancestors(o.subclassMap, t) && k in Level(o.typeMap, u);
      var i :| 0 <= i < |Ancestors(o.subclassMap, t)| && Ancestors(o.subclassMap, t)[i] == u;
      assert ts[i + 1] == u;
    }
    if k in AllowedProps(o, t) {
      var i :| 0 <= i < |ts| && k in Level(o.typeMap, ts[i]);
      if i > 0 {
        assert ts[i] in Ancestors(o.subclassMap, t);
      }
    }
  }

  /** Every type declaring a property gives it the same range list. */
  ghost predicate RangesConsistent(tm: TypeMap)
  {
    forall a, b, k :: a in tm && b in tm && k in tm[a] && k in tm[b] ==> tm[a][k] == tm[b][k]
  }

  /** With consistent ranges, the precedence cannot be observed. */
  lemma {:induction false} ConsistentRangesAgree(tm: TypeMap, ts: seq<string>)
    requires RangesConsistent(tm)
    ensures Assign(tm, ts) == Nearest(tm, ts)
  {
    forall k | k in Assign(tm, ts)
      ensures k in Nearest(tm, ts) && Assign(tm, ts)[k] == Nearest(tm, ts)[k]
    {
      AssignKeys(tm, ts, k);
      var i :| 0 <= i < |ts| && k in Level(tm, ts[i]);
      var lo := FirstDeclaring(tm, ts, k, i);
      var hi := LastDeclaring(tm, ts, k, i);
      AssignLastWins(tm, ts, k, hi);
      NearestFirstWins(tm, ts, k, lo);
    }
    forall k ensures k in Assign(tm, ts) <==> k in Nearest(tm, ts) {
      AssignKeys(tm, ts, k);
      NearestKeys(tm, ts, k);
    }
  }

  lemma {:induction false} FirstDeclaring(tm: TypeMap, ts: seq<string>, k: string, i: nat) returns (lo: nat)
    requires i < |ts| && k in Level(tm, ts[i])
    ensures lo <= i && k in Level(tm, ts[lo])
    ensures forall j :: 0 <= j < lo ==> k !in Level(tm, ts[j])
    decreases i
  {
    if exists j :: 0 <= j < i && k in Level(tm, ts[j]) {
      var j :| 0 <= j < i && k in Level(tm, ts[j]);
      lo := FirstDeclaring(tm, ts, k, j);
    } else {
      lo := i;
    }
  }

  lemma {:induction false} LastDeclaring(tm: TypeMap, ts: seq<string>, k: string, i: nat) returns (hi: nat)
    requires i < |ts| && k in Level(tm, ts[i])
    ensures i <= hi < |ts| && k in Level(tm, ts[hi])
    ensures forall j :: hi < j < |ts| ==> k !in Level(tm, ts[j])
    decreases |ts| - i
  {
    if exists j :: i < j < |ts| && k in Level(tm, ts[j]) {
      var j :| i < j < |ts| && k in Level(tm, ts[j]);
      hi := LastDeclaring(tm, ts, k, j);
    } else {
      hi := i;
    }
  }

  // ---------------------------------------------------------------------
  // The precedence, on a two-level example
  // ---------------------------------------------------------------------

  /** `A` extends `B`, and both declare `p`, with different ranges. */
  const PrecedenceOntology := Ontology(map["A" := "B"], map["A" := map["p" := ["X"]], "B" := map["p" := ["Y"]]])

  lemma PrecedenceAcyclic()
    ensures Acyclic(PrecedenceOntology.subclassMap)
  {
    var sub := PrecedenceOntology.subclassMap;
    forall t ensures ReachesRoot(sub, t, 1) {
      if t == "A" {
        assert !HasParent(sub, "B");
      }
    }
  }

  /**
   * As merged by the code, `A` gets the range its parent declares; the
   * most-specific merge gives it its own.
   */
  lemma PrecedenceExample()
    ensures Acyclic(PrecedenceOntology.subclassMap)
    ensures AllowedProps(PrecedenceOntology, "A") == map["p" := ["Y"]]
    ensures NearestAllowedProps(PrecedenceOntology, "A") == map["p" := ["X"]]
  {
    PrecedenceAcyclic();
    var o := PrecedenceOntology;
    assert HasParent(o.subclassMap, "A") && !HasParent(o.subclassMap, "B");
    assert Ancestors(o.subclassMap, "A") == ["B"];
    var ts := ["A"] + Ancestors(o.subclassMap, "A");
    assert ts == ["A", "B"];
    assert ts[..1] == ["A"] && ts[..1][..0] == [];
    assert Assign(o.typeMap, ts) == Assign(o.typeMap, ["A"]) + Level(o.typeMap, "B");
    assert ts[1..] == ["B"] && ts[1..][1..] == [];
    assert Nearest(o.typeMap, ts) == Nearest(o.typeMap, ["B"]) + Level(o.typeMap, "A");
  }
}
