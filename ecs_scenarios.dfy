/**
 * Runs of `ECS` operations that show how its candidate lists behave, stated
 * for any valid store: component types that nobody has added yet (two of them
 * among the first 32 registered, so with distinct one-bit flags, in the first
 * two runs) and existing entities.
 */
module EcsScenarios {
  import opened Bitfield
  import opened EcsModel
  import EcsProperties

  /** The situation the first two runs (QueryBothTypes, QueryMissesEntity) start from. */
  ghost predicate Fresh<V>(s: State<V>, order: seq<string>, i: nat, j: nat)
  {
    && Valid(s, order)
    && i < |order| && j < |order| && i != j && i < Width && j < Width
    && order[i] !in s.candidates && order[j] !in s.candidates
  }

  /**
   * An entity that gets `a` then `b`, and a second one that gets `a` only:
   * asking for `a` and `b` gives the first entity alone, with both flags.
   */
  lemma QueryBothTypes<V>(s: State<V>, order: seq<string>, i: nat, j: nat, u1: nat, u2: nat, v: V)
    requires Fresh(s, order, i, j)
    requires u1 < |s.entities| && u2 < |s.entities| && u1 != u2
    requires s.entities[u1].mask == Zero && s.entities[u2].mask == Zero
    ensures var a, b := order[i], order[j];
      && Consistent(s)
      && var s1 := AddStep(s, Entity(u1, Zero), a, v).post;
      && Consistent(s1)
      && var s2 := AddStep(s1, Entity(u1, Zero), b, v).post;
      && Consistent(s2)
      && var s3 := AddStep(s2, Entity(u2, Zero), a, v).post;
      && Consistent(s3)
      && QueryStep(s3, [a, b]).result == Ok([Entity(u1, Set(s.componentIndex[a], s.componentIndex[b]))])
  {
    var a, b := order[i], order[j];
    var fa, fb := s.componentIndex[a], s.componentIndex[b];
    EcsProperties.RegisteredFlags(s, order, i, j);
    AddOnceThenOther(s, a, b, u1, v);
    var s1 := AddStep(s, Entity(u1, Zero), a, v).post;
    var s2 := AddStep(s1, Entity(u1, Zero), b, v).post;
    AddToListed(s2, a, b, u2, v);
    var s3 := AddStep(s2, Entity(u2, Zero), a, v).post;
    FoundByQuery(s3, a, b, Entity(u1, Set(fa, fb)));
  }

  /**
   * Adding `a` to an existing entity when `a`'s list exists: the list
   * grows by one entry, the list of `b` and the flags stay as they were.
   */
  lemma AddToListed<V>(s: State<V>, a: string, b: string, u: nat, v: V)
    requires Consistent(s) && a in s.components && a != b
    requires a in s.candidates && b in s.candidates && u < |s.entities|
    ensures var p := AddStep(s, Entity(u, Zero), a, v).post;
      && Consistent(p)
      && p.componentIndex == s.componentIndex && p.components.Keys == s.components.Keys
      && a in p.candidates && |p.candidates[a]| == |s.candidates[a]| + 1
      && b in p.candidates && p.candidates[b] == s.candidates[b]
  {
    EcsProperties.AddKeepsConsistent(s, Entity(u, Zero), a, v);
  }

  /**
   * After the three adds of QueryBothTypes, the query scans `b`'s list, the
   * shorter one, and keeps its single entry, which has both flags.
   */
  lemma FoundByQuery<V>(s3: State<V>, a: string, b: string, e: Entity)
    requires Consistent(s3) && a in s3.components && b in s3.components
    requires a in s3.candidates && |s3.candidates[a]| == 2
    requires b in s3.candidates && s3.candidates[b] == [e]
    requires e.mask == Set(s3.componentIndex[a], s3.componentIndex[b])
    ensures QueryStep(s3, [a, b]).result == Ok([e])
  {
    EcsProperties.QueryTwo(s3, a, b);
    assert Select([e], e.mask) == [e] by {
      assert [e][..0] == [];
    }
  }


  /**
   * One entity that gets `a` then `b`: both reads succeed, yet asking for `a`
   * and `b` gives nothing. Both candidate lists have one entry, the tie goes
   * to `a`'s, and that entry is the snapshot taken before `b` was added.
   */
  lemma QueryMissesEntity<V>(s: State<V>, order: seq<string>, i: nat, j: nat, u: nat, v: V, blank: V)
    requires Fresh(s, order, i, j)
    requires u < |s.entities| && s.entities[u].mask == Zero
    ensures var a, b := order[i], order[j];
      && Consistent(s)
      && var s1 := AddStep(s, Entity(u, Zero), a, v).post;
      && Consistent(s1)
      && var s2 := AddStep(s1, Entity(u, Zero), b, v).post;
      && Consistent(s2)
      && HasStep(s2, Entity(u, Zero), a, blank).result == Ok(true)
      && HasStep(s2, Entity(u, Zero), b, blank).result == Ok(true)
      && QueryStep(s2, [a, b]).result == Ok([])
  {
    var a, b := order[i], order[j];
    EcsProperties.RegisteredFlags(s, order, i, j);
    EcsProperties.RegisteredFlags(s, order, j, i);
    AddOnceThenOther(s, a, b, u, v);
    var s1 := AddStep(s, Entity(u, Zero), a, v).post;
    var s2 := AddStep(s1, Entity(u, Zero), b, v).post;
    BothReadable(s, s1, s2, a, b, u, v, blank);
    MissedByQuery(s2, a, b, u);
  }

  /** After the two adds of QueryMissesEntity, the entity reads as having both types. */
  lemma BothReadable<V>(s: State<V>, s1: State<V>, s2: State<V>, a: string, b: string, u: nat, v: V, blank: V)
    requires Consistent(s) && a in s.components && b in s.components && u < |s.entities|
    requires s1 == AddStep(s, Entity(u, Zero), a, v).post && Consistent(s1)
    requires s2 == AddStep(s1, Entity(u, Zero), b, v).post && Consistent(s2)
    requires s2.componentIndex == s.componentIndex
    requires s2.entities[u].mask == Set(s.componentIndex[a], s.componentIndex[b])
    ensures HasStep(s2, Entity(u, Zero), a, blank).result == Ok(true)
    ensures HasStep(s2, Entity(u, Zero), b, blank).result == Ok(true)
  {
    EcsProperties.AddThenGet(s1, Entity(u, Zero), b, v, blank);
    EcsProperties.GetMeaning(s2, Entity(u, Zero), a, blank);
  }

  /** After the two adds of QueryMissesEntity, the query scans `a`'s stale entry and finds nothing. */
  lemma MissedByQuery<V>(s2: State<V>, a: string, b: string, u: nat)
    requires Consistent(s2) && a in s2.components && b in s2.components
    requires s2.componentIndex[a] * s2.componentIndex[b] == Zero && s2.componentIndex[b] != Zero
    requires a in s2.candidates && s2.candidates[a] == [Entity(u, s2.componentIndex[a])]
    requires b in s2.candidates && |s2.candidates[b]| == 1
    ensures QueryStep(s2, [a, b]).result == Ok([])
  {
    var fa, fb := s2.componentIndex[a], s2.componentIndex[b];
    EcsProperties.QueryTwo(s2, a, b);
    var e := Entity(u, fa);
    assert s2.candidates[a] == [e];
    assert !Has(fa, Set(fa, fb)) by {
      var x :| x in fb;
    }
    assert Select([e], Set(fa, fb)) == [] by {
      assert [e][..0] == [];
    }
  }

  /**
   * Adding `a` and then `b` to an entity with an empty mask, neither type being
   * listed yet: each list holds one snapshot, `a`'s taken before `b` was added.
   */
  lemma AddOnceThenOther<V>(s: State<V>, a: string, b: string, u: nat, v: V)
    requires Consistent(s) && a in s.components && b in s.components && a != b
    requires a !in s.candidates && b !in s.candidates
    requires u < |s.entities| && s.entities[u].mask == Zero
    requires s.componentIndex[a] * s.componentIndex[b] == Zero
    ensures var s1 := AddStep(s, Entity(u, Zero), a, v).post;
      && Consistent(s1)
      && var s2 := AddStep(s1, Entity(u, Zero), b, v).post;
      && Consistent(s2)
      && s2.componentIndex == s.componentIndex
      && |s2.entities| == |s.entities|
      && (forall k :: 0 <= k < |s.entities| && k != u ==> s2.entities[k] == s.entities[k])
      && s2.entities[u].mask == Set(s.componentIndex[a], s.componentIndex[b])
      && a in s2.candidates && s2.candidates[a] == [Entity(u, s.componentIndex[a])]
      && b in s2.candidates && s2.candidates[b] == [s2.entities[u]]
  {
    EcsProperties.AddKeepsConsistent(s, Entity(u, Zero), a, v);
    var s1 := AddStep(s, Entity(u, Zero), a, v).post;
    EcsProperties.AddKeepsConsistent(s1, Entity(u, Zero), b, v);
    var e1 := Entity(u, s.componentIndex[a]);
    assert s1.entities[u].mask == s.componentIndex[a];
    assert [] + [e1] == [e1];
    var s2 := AddStep(s1, Entity(u, Zero), b, v).post;
    assert [] + [s2.entities[u]] == [s2.entities[u]];
  }

  /**
   * One type added twice to the same entity: the entity is listed twice, and
   * asking for that type returns it twice.
   */
  lemma QueryReturnsTwice<V>(s: State<V>, a: string, u: nat, v1: V, v2: V)
    requires Consistent(s) && a in s.components && a !in s.candidates && u < |s.entities|
    ensures var s1 := AddStep(s, Entity(u, Zero), a, v1).post;
      && Consistent(s1)
      && var s2 := AddStep(s1, Entity(u, Zero), a, v2).post;
      && Consistent(s2)
      && u < |s2.entities|
      && QueryStep(s2, [a]).result == Ok([s2.entities[u], s2.entities[u]])
  {
    EcsProperties.AddKeepsConsistent(s, Entity(u, Zero), a, v1);
    var s1 := AddStep(s, Entity(u, Zero), a, v1).post;
    EcsProperties.AddKeepsConsistent(s1, Entity(u, Zero), a, v2);
    var s2 := AddStep(s1, Entity(u, Zero), a, v2).post;
    var e := s1.entities[u];
    assert s1.candidates[a] == [e] by {
      assert [] + [e] == [e];
    }
    assert s2.entities[u] == e;
    QueryOneListed(s2, a, e);
  }

  /** Asking for one type whose list is two copies of an entry with its flag returns both. */
  lemma QueryOneListed<V>(s: State<V>, a: string, e: Entity)
    requires Consistent(s) && a in s.components
    requires a in s.candidates && s.candidates[a] == [e, e] && Has(e.mask, s.componentIndex[a])
    ensures QueryStep(s, [a]).result == Ok([e, e])
  {
    var names := [a];
    assert FirstUnregistered(s, names) == 1;
    assert names[..1] == names;
    TouchNext(s.candidates, names, 0);
    assert names[..0] == [];
    assert Touch(s.candidates, names) == s.candidates;
    assert Sizes(s.candidates, names) == [2];
    assert FirstMin([2]) == 0;
    assert QueryMask(s.componentIndex, names) == Set(Zero, s.componentIndex[a]);
    assert Select([e, e], Set(Zero, s.componentIndex[a])) == [e, e] by {
      assert [e, e][..1] == [e];
      assert [e][..0] == [];
    }
  }
}
