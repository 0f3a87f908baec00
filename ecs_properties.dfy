/**
 * Properties of the `ECS` operations, stated on the step functions of
 * EcsModel: the invariant each operation keeps, how flags are handed out,
 * what a component read sees after an add or a remove, and what a query
 * returns.
 */
module EcsProperties {
  import opened Bitfield
  import opened EcsModel

  // ---------------------------------------------------------------------------
  // The invariant is kept by every operation.

  lemma CreateKeepsValid<V>(s: State<V>, order: seq<string>)
    requires Valid(s, order)
    ensures Valid(CreateStep(s).post, order)
  {
    var p := CreateStep(s).post;
    forall n, k | n in p.candidates && 0 <= k < |p.candidates[n]|
      ensures Listed(p, n, p.candidates[n][k])
    {
      assert Listed(s, n, s.candidates[n][k]);
    }
  }

  lemma RegisterKeepsValid<V>(s: State<V>, order: seq<string>, name: string)
    requires Valid(s, order)
    ensures Valid(RegisterStep(s, name).post, if name in s.components then order else order + [name])
  {
    if name !in s.components {
      RegisterKeepsConsistent(s, name);
      RegisterExtendsHistory(s, order, name);
    }
  }

  lemma RegisterKeepsConsistent<V>(s: State<V>, name: string)
    requires Consistent(s) && name !in s.components
    ensures Consistent(RegisterStep(s, name).post)
  {
    var p := RegisterStep(s, name).post;
    forall n, k | n in p.candidates && 0 <= k < |p.candidates[n]|
      ensures Listed(p, n, p.candidates[n][k])
    {
      assert Listed(s, n, s.candidates[n][k]);
    }
  }

  lemma RegisterExtendsHistory<V>(s: State<V>, order: seq<string>, name: string)
    requires FlagHistory(s, order) && name !in s.components && s.components.Keys == s.componentIndex.Keys
    ensures FlagHistory(RegisterStep(s, name).post, order + [name])
  {
    RegisterNextFlag(s, order, name, |order|);
    RegisterRecordsName(s, order, name);
    RegisterOrderDistinct(s, order, name);
  }

  // `n` stands for |order|: the solver handles Pow2(n + 1) far better than Pow2(|order| + 1).
  lemma RegisterNextFlag<V>(s: State<V>, order: seq<string>, name: string, n: nat)
    requires FlagHistory(s, order) && name !in s.components && s.components.Keys == s.componentIndex.Keys
    requires n == |order|
    ensures var p := RegisterStep(s, name).post;
      && p.bitIndex == Pow2(n + 1)
      && forall k :: 0 <= k < n + 1 ==>
           (order + [name])[k] in p.componentIndex && p.componentIndex[(order + [name])[k]] == Pow2(k)
  {
    Pow2Doubles(n);
  }

  lemma RegisterRecordsName<V>(s: State<V>, order: seq<string>, name: string)
    requires FlagHistory(s, order) && name !in s.components && s.components.Keys == s.componentIndex.Keys
    ensures var p := RegisterStep(s, name).post;
      forall n :: n in p.componentIndex <==> n in order + [name]
  {
  }

  lemma RegisterOrderDistinct<V>(s: State<V>, order: seq<string>, name: string)
    requires FlagHistory(s, order) && name !in s.components && s.components.Keys == s.componentIndex.Keys
    ensures forall i, j :: 0 <= i < j < |order| + 1 ==> (order + [name])[i] != (order + [name])[j]
  {
  }

  lemma AddKeepsValid<V>(s: State<V>, order: seq<string>, entity: Entity, name: string, value: V)
    requires Valid(s, order)
    ensures Valid(AddStep(s, entity, name, value).post, order)
  {
    AddKeepsConsistent(s, entity, name, value);
  }

  lemma AddKeepsConsistent<V>(s: State<V>, entity: Entity, name: string, value: V)
    requires Consistent(s)
    ensures Consistent(AddStep(s, entity, name, value).post)
  {
    var p := AddStep(s, entity, name, value).post;
    if name in s.components {
      forall n, k | n in p.candidates && 0 <= k < |p.candidates[n]|
        ensures Listed(p, n, p.candidates[n][k])
      {
        if !(0 <= entity.uuid < |s.entities|) || n != name || k < |p.candidates[n]| - 1 {
          assert Listed(s, n, s.candidates[n][k]);
        } else {
          var e := p.candidates[n][k];
          assert e == p.entities[entity.uuid];
          assert Has(e.mask, s.componentIndex[name]);
        }
      }
    }
  }

  lemma RemoveKeepsValid<V>(s: State<V>, order: seq<string>, entity: Entity, name: string)
    requires Valid(s, order)
    requires name in s.components && 0 <= entity.uuid < |s.entities| ==> name in s.candidates
    ensures Valid(RemoveStep(s, entity, name).post, order)
  {
    RemoveKeepsConsistent(s, entity, name);
  }

  lemma RemoveKeepsConsistent<V>(s: State<V>, entity: Entity, name: string)
    requires Consistent(s)
    requires name in s.components && 0 <= entity.uuid < |s.entities| ==> name in s.candidates
    ensures Consistent(RemoveStep(s, entity, name).post)
  {
    var p := RemoveStep(s, entity, name).post;
    if name in s.components && 0 <= entity.uuid < |s.entities| {
      var list := s.candidates[name];
      var i := FindFirst(list, entity.uuid);
      forall n, k | n in p.candidates && 0 <= k < |p.candidates[n]|
        ensures Listed(p, n, p.candidates[n][k])
      {
        if n != name || i == |list| {
          assert Listed(s, n, s.candidates[n][k]);
        } else if k < i {
          assert p.candidates[n][k] == list[k];
          assert Listed(s, n, list[k]);
        } else {
          assert p.candidates[n][k] == list[k + 1];
          assert Listed(s, n, list[k + 1]);
        }
      }
    }
  }

  lemma GetKeepsValid<V>(s: State<V>, order: seq<string>, entity: Entity, name: string, blank: V)
    requires Valid(s, order)
    ensures Valid(GetStep(s, entity, name, blank).post, order)
  {
    var p := GetStep(s, entity, name, blank).post;
    forall n, k | n in p.candidates && 0 <= k < |p.candidates[n]|
      ensures Listed(p, n, p.candidates[n][k])
    {
      assert Listed(s, n, s.candidates[n][k]);
    }
  }

  lemma QueryKeepsValid<V>(s: State<V>, order: seq<string>, names: seq<string>)
    requires Valid(s, order)
    ensures Valid(QueryStep(s, names).post, order)
  {
    if names != [] {
      var k := FirstUnregistered(s, names);
      var touched := names[..k];
      var p := QueryStep(s, names).post;
      assert p.candidates == Touch(s.candidates, touched);
      TouchCovers(s.candidates, touched);
      TouchAddsOnlyNames(s.candidates, touched);
      forall n | n in p.candidates
        ensures n in p.componentIndex
      {
        if n !in s.candidates {
          var i :| 0 <= i < |touched| && touched[i] == n;
          assert names[i] == n;
        }
      }
      forall n, j | n in p.candidates && 0 <= j < |p.candidates[n]|
        ensures Listed(p, n, p.candidates[n][j])
      {
        assert Listed(s, n, s.candidates[n][j]);
      }
    }
  }


  // ---------------------------------------------------------------------------
  // Identity of entities.

  /**
   * `EntityComparer` is a strict order in which two entities are equivalent
   * keys exactly when their identifiers agree: the storage maps are keyed by
   * identifier alone.
   */
  lemma EntityComparerKeys(a: Entity, b: Entity, c: Entity)
    ensures !EntityComparer(a, a)
    ensures EntityComparer(a, b) && EntityComparer(b, c) ==> EntityComparer(a, c)
    ensures !EntityComparer(a, b) && !EntityComparer(b, a) <==> a.uuid == b.uuid
  {
  }

  // ---------------------------------------------------------------------------
  // CreateEntity.

  /**
   * The new entity has the old counter as identifier and an empty mask; it is
   * appended, so it sits at the position of its identifier; nothing else changes.
   */
  lemma CreateAppendsNext<V>(s: State<V>, order: seq<string>)
    requires Valid(s, order)
    ensures var t := CreateStep(s);
      && t.result.uuid == s.entityIndex && t.result.mask == Zero
      && t.post.entityIndex == s.entityIndex + 1
      && t.post.entities == s.entities + [t.result]
      && t.post.entities[t.result.uuid] == t.result
      && t.post.components == s.components && t.post.componentIndex == s.componentIndex
      && t.post.candidates == s.candidates && t.post.bitIndex == s.bitIndex
      && t.events == [EntityCreated(t.result)]
  {
  }

  // ---------------------------------------------------------------------------
  // RegisterComponent.

  /** Registering a known name changes nothing: not its flag, its storage or `bitIndex`. */
  lemma RegisterKnownUnchanged<V>(s: State<V>, name: string)
    requires name in s.components
    ensures RegisterStep(s, name) == Step(s, Done, [])
  {
  }

  /**
   * The fresh registration that comes after n others records the flag 2^n (the
   * integer 0 once n reaches 32) with an empty storage, and throws exactly when
   * n is 31, because doubling 2^31 in 32 bits gives 0; the record stays in place.
   */
  lemma RegisterFreshFlag<V>(s: State<V>, order: seq<string>, name: string, n: nat)
    requires Valid(s, order) && name !in s.components && n == |order|
    ensures var t := RegisterStep(s, name);
      && name in t.post.componentIndex && name in t.post.components
      && t.post.componentIndex[name] == Pow2(n)
      && Value(t.post.componentIndex[name]) == (if n < Width then Power(n) else 0)
      && t.post.components == s.components[name := map[]]
      && t.post.componentIndex == s.componentIndex[name := Pow2(n)]
      && t.post.entities == s.entities && t.post.entityIndex == s.entityIndex
      && t.post.candidates == s.candidates && t.events == []
      && (t.result == Thrown(FlagsExhausted) <==> n == Width - 1)
      && (t.result == Done <==> n != Width - 1)
  {
    Pow2Value(n);
    Pow2DropsOnlyAt31(n);
  }

  /**
   * The first 32 registered names have one-bit flags, pairwise disjoint; every
   * later one has the flag 0.
   */
  lemma RegisteredFlags<V>(s: State<V>, order: seq<string>, i: nat, j: nat)
    requires Valid(s, order) && i < |order| && j < |order|
    ensures var fi, fj := s.componentIndex[order[i]], s.componentIndex[order[j]];
      && (fi != Zero <==> i < Width)
      && (i < Width ==> |fi| == 1)
      && (i != j ==> fi * fj == Zero)
  {
    if i < Width {
      Pow2Disjoint(i, j % Width);
      if j < Width {
        Pow2Disjoint(i, j);
      }
    }
  }

  // ---------------------------------------------------------------------------
  // AddComponent.

  /** With an unregistered name, nothing changes and ComponentNotRegistered is thrown. */
  lemma AddUnregistered<V>(s: State<V>, entity: Entity, name: string, value: V)
    requires Consistent(s) && name !in s.components
    ensures AddStep(s, entity, name, value) == Step(s, Thrown(ComponentNotRegistered(name)), [])
  {
  }

  /**
   * With an unknown identifier, the value is stored all the same before the
   * exception, and nothing else changes.
   */
  lemma AddUnknownEntity<V>(s: State<V>, entity: Entity, name: string, value: V)
    requires Consistent(s) && name in s.components && !(0 <= entity.uuid < |s.entities|)
    ensures var t := AddStep(s, entity, name, value);
      && t.result == Thrown(EntityNotFound) && t.events == []
      && t.post.components == s.components[name := s.components[name][entity.uuid := value]]
      && t.post.entities == s.entities && t.post.candidates == s.candidates
      && t.post.componentIndex == s.componentIndex
      && t.post.entityIndex == s.entityIndex && t.post.bitIndex == s.bitIndex
  {
  }

  /**
   * On an existing entity: its mask gains the type's flag and keeps its other
   * bits, no other entity changes, the type's candidate list grows by exactly
   * one snapshot of the updated entity (whether or not it was already listed),
   * the value is stored, and one ComponentAdded is broadcast.
   */
  lemma AddToEntity<V>(s: State<V>, entity: Entity, name: string, value: V)
    requires Consistent(s) && name in s.components && 0 <= entity.uuid < |s.entities|
    ensures var t := AddStep(s, entity, name, value);
      var u, flag := entity.uuid, s.componentIndex[name];
      var list := if name in s.candidates then s.candidates[name] else [];
      && t.result == Done
      && |t.post.entities| == |s.entities|
      && Has(t.post.entities[u].mask, flag)
      && Clear(t.post.entities[u].mask, flag) == Clear(s.entities[u].mask, flag)
      && (forall j :: 0 <= j < |s.entities| && j != u ==> t.post.entities[j] == s.entities[j])
      && name in t.post.candidates
      && t.post.candidates == s.candidates[name := list + [t.post.entities[u]]]
      && t.post.components == s.components[name := s.components[name][u := value]]
      && t.post.componentIndex == s.componentIndex
      && t.post.entityIndex == s.entityIndex && t.post.bitIndex == s.bitIndex
      && t.events == [ComponentAdded(entity, name, value)]
  {
  }

  /** After an add to an existing entity, reading the component gives the value added. */
  lemma AddThenGet<V>(s: State<V>, entity: Entity, name: string, value: V, blank: V)
    requires Consistent(s) && name in s.components && 0 <= entity.uuid < |s.entities|
    ensures var p := AddStep(s, entity, name, value).post;
      && Consistent(p)
      && GetStep(p, entity, name, blank) == Step(p, Ok(Some(value)), [])
      && HasStep(p, entity, name, blank).result == Ok(true)
  {
    AddKeepsConsistent(s, entity, name, value);
  }

  /**
   * A second add overwrites the stored value rather than keeping both; the
   * candidate list, though, receives a second entry for the entity.
   */
  lemma AddTwiceOverwrites<V>(s: State<V>, entity: Entity, name: string, v1: V, v2: V, blank: V)
    requires Consistent(s) && name in s.components && 0 <= entity.uuid < |s.entities|
    ensures var p1 := AddStep(s, entity, name, v1).post;
      && Consistent(p1)
      && var p2 := AddStep(p1, entity, name, v2).post;
      && Consistent(p2)
      && GetStep(p2, entity, name, blank).result == Ok(Some(v2))
      && name in p1.candidates && name in p2.candidates
      && |p2.candidates[name]| == |p1.candidates[name]| + 1
  {
    AddKeepsConsistent(s, entity, name, v1);
    var p1 := AddStep(s, entity, name, v1).post;
    AddThenGet(p1, entity, name, v2, blank);
  }

  // ---------------------------------------------------------------------------
  // RemoveComponent.

  /**
   * With an unregistered name or an unknown identifier, the matching exception
   * is thrown and nothing changes.
   */
  lemma RemoveFailures<V>(s: State<V>, entity: Entity, name: string)
    requires Consistent(s)
    requires name !in s.components || !(0 <= entity.uuid < |s.entities|)
    ensures var t := RemoveStep(s, entity, name);
      && t.post == s && t.events == []
      && t.result == if name !in s.components then Thrown(ComponentNotRegistered(name)) else Thrown(EntityNotFound)
  {
  }

  /**
   * On an existing entity: the flag is cleared from its mask and the other bits
   * kept, no other entity, flag, counter or list changes, and the storage is
   * left as it was. If the entity is listed, the first entry with its
   * identifier is erased and ComponentRemoved carries the value that was
   * stored; otherwise the list is unchanged and nothing is broadcast.
   */
  lemma RemoveFromEntity<V>(s: State<V>, entity: Entity, name: string)
    requires Consistent(s) && name in s.components && 0 <= entity.uuid < |s.entities|
    requires name in s.candidates
    ensures var t := RemoveStep(s, entity, name);
      var u, flag, list := entity.uuid, s.componentIndex[name], s.candidates[name];
      var k := FindFirst(list, u);
      && t.result == Done
      && |t.post.entities| == |s.entities|
      && Has(t.post.entities[u].mask, flag) == (flag == Zero)
      && Clear(t.post.entities[u].mask, flag) == Clear(s.entities[u].mask, flag)
      && (forall j :: 0 <= j < |s.entities| && j != u ==> t.post.entities[j] == s.entities[j])
      && t.post.components == s.components && t.post.componentIndex == s.componentIndex
      && t.post.entityIndex == s.entityIndex && t.post.bitIndex == s.bitIndex
      && t.post.candidates.Keys == s.candidates.Keys
      && (forall n :: n in s.candidates && n != name ==> t.post.candidates[n] == s.candidates[n])
      && (k < |list| ==> t.post.candidates[name] == list[..k] + list[k + 1..])
      && ((exists j :: 0 <= j < |list| && list[j].uuid == u) ==>
            && |t.post.candidates[name]| == |list| - 1
            && (exists j :: 0 <= j < |list| && list[j].uuid == u
                  && multiset(t.post.candidates[name]) + multiset{list[j]} == multiset(list))
            && u in s.components[name]
            && t.events == [ComponentRemoved(entity, name, s.components[name][u])])
      && ((forall j :: 0 <= j < |list| ==> list[j].uuid != u) ==>
            t.post.candidates[name] == list && t.events == [])
  {
    var list := s.candidates[name];
    var k := FindFirst(list, entity.uuid);
    var flag := s.componentIndex[name];
    var mask := RemoveStep(s, entity, name).post.entities[entity.uuid].mask;
    if Has(mask, flag) {
      assert flag == Zero by {
        forall i | i in flag ensures false {
        }
      }
    }
    if k < |list| {
      assert Listed(s, name, list[k]);
      assert list == list[..k] + [list[k]] + list[k + 1..];
      assert multiset(list) == multiset(list[..k]) + multiset{list[k]} + multiset(list[k + 1..]);
    }
  }

  /**
   * Removing right after adding: the event carries the added value, the
   * storage still holds it, and a read reports the component absent unless the
   * type's flag is 0 (a type registered after the 32nd), in which case the
   * value is still found.
   */
  lemma RemoveAfterAdd<V>(s: State<V>, entity: Entity, name: string, value: V, blank: V)
    requires Consistent(s) && name in s.components && 0 <= entity.uuid < |s.entities|
    ensures var p := AddStep(s, entity, name, value).post;
      && Consistent(p) && name in p.candidates
      && var t := RemoveStep(p, entity, name);
      && t.result == Done
      && t.events == [ComponentRemoved(entity, name, value)]
      && t.post.components[name][entity.uuid] == value
      && Consistent(t.post)
      && GetStep(t.post, entity, name, blank).result
           == (if s.componentIndex[name] == Zero then Ok(Some(value)) else Ok(None))
      && HasStep(t.post, entity, name, blank).result == Ok(s.componentIndex[name] == Zero)
  {
    AddKeepsConsistent(s, entity, name, value);
    var p := AddStep(s, entity, name, value).post;
    var list := p.candidates[name];
    assert list[|list| - 1].uuid == entity.uuid;
    assert FindFirst(list, entity.uuid) < |list|;
    var flag := s.componentIndex[name];
    ClearedLacksFlag(Set(s.entities[entity.uuid].mask, flag), flag);
    RemoveKeepsConsistent(p, entity, name);
  }

  /** A cleared word has the flag only when the flag is 0. */
  lemma ClearedLacksFlag(mask: Bits, flag: Bits)
    ensures Has(Clear(mask, flag), flag) <==> flag == Zero
  {
    if Has(Clear(mask, flag), flag) {
      assert flag == Zero by {
        forall i | i in flag ensures false {
        }
      }
    }
  }

  // ---------------------------------------------------------------------------
  // GetComponent and HasComponent.

  /**
   * A read throws for an unregistered name; otherwise it finds a value exactly
   * when some entity with the identifier carries the type's flag, and then it
   * is the stored value when there is one. A read that finds nothing, or finds
   * a stored value, changes nothing; one that finds no stored value returns the
   * default value and inserts it, as `operator[]` does. HasComponent answers
   * whether the read found a value. No event is broadcast.
   */
  lemma GetMeaning<V>(s: State<V>, entity: Entity, name: string, blank: V)
    requires Consistent(s)
    ensures var t := GetStep(s, entity, name, blank);
      var u := entity.uuid;
      && t.events == []
      && (name !in s.components ==> t == Step(s, Err(ComponentNotRegistered(name)), []))
      && (name in s.components ==>
            && t.result.Ok?
            && (t.result.value.Some? <==>
                  exists j :: 0 <= j < |s.entities| && s.entities[j].uuid == u && Has(s.entities[j].mask, s.componentIndex[name]))
            && (u in s.components[name] ==> t.post == s)
            && (t.result.value.None? ==> t.post == s)
            && (t.result.value.Some? && u in s.components[name] ==> t.result.value.value == s.components[name][u])
            && (t.result.value.Some? && u !in s.components[name] ==>
                  && t.result.value.value == blank
                  && t.post == s.(components := s.components[name := s.components[name][u := blank]])))
      && HasStep(s, entity, name, blank).result ==
           (if name in s.components then Ok(t.result.value.Some?) else Err(ComponentNotRegistered(name)))
  {
    if name in s.components && (exists j :: 0 <= j < |s.entities| && s.entities[j].uuid == entity.uuid && Has(s.entities[j].mask, s.componentIndex[name])) {
      var j :| 0 <= j < |s.entities| && s.entities[j].uuid == entity.uuid && Has(s.entities[j].mask, s.componentIndex[name]);
      assert j == entity.uuid;
    }
  }

  /**
   * The default insertion happens: a type whose flag is 0 (registered after the
   * 32nd) is present on every existing entity, so reading it where nothing is
   * stored returns the default value and stores it.
   */
  lemma GetInsertsDefault<V>(s: State<V>, entity: Entity, name: string, blank: V)
    requires Consistent(s) && name in s.components && s.componentIndex[name] == Zero
    requires 0 <= entity.uuid < |s.entities| && entity.uuid !in s.components[name]
    ensures GetStep(s, entity, name, blank) ==
      Step(s.(components := s.components[name := s.components[name][entity.uuid := blank]]), Ok(Some(blank)), [])
  {
  }

  // ---------------------------------------------------------------------------
  // EntitiesWith.

  /** A mask has the union of the flags of `names` exactly when it has each of them. */
  lemma {:induction false} QueryMaskHas(flags: map<string, Bits>, names: seq<string>, mask: Bits)
    requires forall n :: n in names ==> n in flags
    ensures Has(mask, QueryMask(flags, names)) <==> forall n :: n in names ==> Has(mask, flags[n])
  {
    if names != [] {
      var init, last := names[..|names| - 1], names[|names| - 1];
      assert names == init + [last];
      QueryMaskHas(flags, init, mask);
      HasSet(mask, QueryMask(flags, init), flags[last]);
    }
  }

  /** With no names, the result is every created entity, one per identifier, in order. */
  lemma QueryNoTypes<V>(s: State<V>, order: seq<string>)
    requires Valid(s, order)
    ensures var t := QueryStep(s, []);
      && t.post == s && t.result.Ok?
      && |t.result.value| == s.entityIndex
      && forall i :: 0 <= i < s.entityIndex ==> t.result.value[i].uuid == i
  {
  }

  /** A name that is not registered makes the query throw ComponentNotRegistered. */
  lemma QueryUnregistered<V>(s: State<V>, names: seq<string>, i: nat)
    requires Consistent(s) && i < |names| && names[i] !in s.components
    ensures var r := QueryStep(s, names).result;
      r.Err? && r.error.ComponentNotRegistered? && r.error.name in names && r.error.name !in s.components
  {
  }

  /**
   * With registered names, the query scans the first of the shortest requested
   * candidate lists and returns exactly those of its entries whose mask carries
   * the flag of every requested name, so no more entries than the list has;
   * each is a snapshot of an existing entity.
   */
  lemma QueryResult<V>(s: State<V>, names: seq<string>)
    requires Consistent(s) && names != []
    requires forall i :: 0 <= i < |names| ==> names[i] in s.components
    ensures var t := QueryStep(s, names);
      var lists := t.post.candidates;
      && t.result.Ok? && t.events == []
      && (forall i :: 0 <= i < |names| ==> names[i] in lists)
      && var c := FirstMin(Sizes(lists, names));
      var list := lists[names[c]];
      && (forall j :: 0 <= j < |names| ==> |list| <= |lists[names[j]]|)
      && (forall j :: 0 <= j < c ==> |list| < |lists[names[j]]|)
      && |t.result.value| <= |list|
      && (forall x :: x in t.result.value <==>
            x in list && forall n :: n in names ==> Has(x.mask, s.componentIndex[n]))
      && (forall x :: x in t.result.value ==> 0 <= x.uuid < |s.entities|)
  {
    var k := FirstUnregistered(s, names);
    assert k == |names|;
    assert names[..k] == names;
    var lists := Touch(s.candidates, names);
    TouchCovers(s.candidates, names);
    TouchAddsOnlyNames(s.candidates, names);
    ShortestList(lists, names);
    var c := FirstMin(Sizes(lists, names));
    var list := lists[names[c]];
    var field := QueryMask(s.componentIndex, names);
    forall x: Entity ensures Has(x.mask, field) <==> forall n :: n in names ==> Has(x.mask, s.componentIndex[n]) {
      QueryMaskHas(s.componentIndex, names, x.mask);
    }
    forall x: Entity | x in list
      ensures 0 <= x.uuid < |s.entities|
    {
      var j :| 0 <= j < |list| && list[j] == x;
      assert Listed(s, names[c], list[j]);
    }
  }

  /** The list a query scans is a shortest one, and strictly shorter than every earlier one. */
  lemma ShortestList(lists: map<string, seq<Entity>>, names: seq<string>)
    requires names != [] && forall n :: n in names ==> n in lists
    ensures var c := FirstMin(Sizes(lists, names));
      && (forall j :: 0 <= j < |names| ==> |lists[names[c]]| <= |lists[names[j]]|)
      && (forall j :: 0 <= j < c ==> |lists[names[c]]| < |lists[names[j]]|)
  {
    var sizes := Sizes(lists, names);
    assert forall j :: 0 <= j < |names| ==> sizes[j] == |lists[names[j]]|;
  }

  /**
   * With registered names, each entry of the scanned list that carries every
   * requested flag is returned as many times as the list holds it, so an
   * entity listed twice is returned twice; other entries are not returned.
   */
  lemma QueryResultCounts<V>(s: State<V>, names: seq<string>)
    requires Consistent(s) && names != []
    requires forall i :: 0 <= i < |names| ==> names[i] in s.components
    ensures var t := QueryStep(s, names);
      var lists := t.post.candidates;
      && t.result.Ok?
      && (forall i :: 0 <= i < |names| ==> names[i] in lists)
      && var list := lists[names[FirstMin(Sizes(lists, names))]];
      && forall x :: multiset(t.result.value)[x] ==
           if forall n :: n in names ==> Has(x.mask, s.componentIndex[n]) then multiset(list)[x] else 0
  {
    var k := FirstUnregistered(s, names);
    assert k == |names|;
    assert names[..k] == names;
    TouchCovers(s.candidates, names);
    var lists := Touch(s.candidates, names);
    var list := lists[names[FirstMin(Sizes(lists, names))]];
    var field := QueryMask(s.componentIndex, names);
    assert QueryStep(s, names).result == Ok(Select(list, field));
    SelectByNames(s.componentIndex, names, list);
  }

  /** Filtering by the query field keeps each entry that has every flag, as often as it occurs. */
  lemma SelectByNames(flags: map<string, Bits>, names: seq<string>, list: seq<Entity>)
    requires forall n :: n in names ==> n in flags
    ensures forall x :: multiset(Select(list, QueryMask(flags, names)))[x] ==
                       if forall n :: n in names ==> Has(x.mask, flags[n]) then multiset(list)[x] else 0
  {
    SelectCounts(list, QueryMask(flags, names));
    forall x: Entity
      ensures multiset(Select(list, QueryMask(flags, names)))[x] ==
        if forall n :: n in names ==> Has(x.mask, flags[n]) then multiset(list)[x] else 0
    {
      QueryMaskHas(flags, names, x.mask);
    }
  }

  /**
   * Asking for two types whose lists both exist scans the strictly shorter
   * list, and the first type's list on a tie, for entries carrying both flags.
   */
  lemma QueryTwo<V>(s: State<V>, a: string, b: string)
    requires Consistent(s) && a in s.components && b in s.components
    requires a in s.candidates && b in s.candidates
    ensures var list := if |s.candidates[b]| < |s.candidates[a]| then s.candidates[b] else s.candidates[a];
      QueryStep(s, [a, b]) == Step(s, Ok(Select(list, Set(s.componentIndex[a], s.componentIndex[b]))), [])
  {
    var names := [a, b];
    assert FirstUnregistered(s, names) == 2;
    assert names[..2] == names;
    TouchNext(s.candidates, names, 0);
    TouchNext(s.candidates, names, 1);
    assert names[..0] == [];
    assert Touch(s.candidates, names) == s.candidates;
    var sizes := Sizes(s.candidates, names);
    assert sizes == [|s.candidates[a]|, |s.candidates[b]|];
    assert sizes[..1] == [|s.candidates[a]|];
    assert names[..1] == [a];
    assert QueryMask(s.componentIndex, [a]) == s.componentIndex[a];
    assert QueryMask(s.componentIndex, names) == Set(s.componentIndex[a], s.componentIndex[b]);
    assert FirstMin(sizes) == if |s.candidates[b]| < |s.candidates[a]| then 1 else 0;
  }
}
