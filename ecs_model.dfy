/**
 * The state of the entity/component store `ECS` (src/Manager.hpp) as a value,
 * and what each of its operations does to that state, as pure functions.
 *
 * Component types are identified by their type name (a `string`, the result of
 * `typeid(T).name()` in the source); component values of every type are one
 * type `V`. A step returns the new state, the operation's result (a thrown
 * exception is an `Err`/`Thrown` result; the state changes made before the
 * throw are kept, as in the source) and the events it broadcasts.
 */
module EcsModel {
  import opened Bitfield

  /** An entity: its identifier and the mask of the component types it carries. */
  datatype Entity = Entity(uuid: int, mask: Bits)

  /** `EntityComparer`: the order of the storage maps, on identifiers alone. */
  predicate EntityComparer(lhs: Entity, rhs: Entity)
  {
    lhs.uuid < rhs.uuid
  }

  /** The exceptions `ECS` throws. */
  datatype Error =
    | ComponentNotRegistered(name: string)  // ComponentNotRegisteredException
    | EntityNotFound                        // std::runtime_error
    | FlagsExhausted                        // std::out_of_range

  datatype Status = Done | Thrown(error: Error)

  datatype Option<T> = None | Some(value: T)

  datatype Result<T> = Ok(value: T) | Err(error: Error)

  /** The lifecycle events `ECS` broadcasts on its event manager. */
  datatype Event<V> =
    | EntityCreated(entity: Entity)
    | ComponentAdded(entity: Entity, name: string, value: V)
    | ComponentRemoved(entity: Entity, name: string, value: V)

  /**
   * The fields of `ECS`: the entity counter, the next flag to hand out, the
   * authoritative entity list, the per-type storage (keyed by identifier, since
   * `EntityComparer` looks at nothing else), the type-name to flag table and the
   * per-type candidate lists (`individualComponentVecs`).
   */
  datatype State<V> = State(
    entityIndex: int,
    bitIndex: Bits,
    entities: seq<Entity>,
    components: map<string, map<int, V>>,
    componentIndex: map<string, Bits>,
    candidates: map<string, seq<Entity>>)

  /** The outcome of one operation: new state, result, broadcast events. */
  datatype Step<V, R> = Step(post: State<V>, result: R, events: seq<Event<V>>)

  /** The state the constructor sets up: no entities, no types, `bitIndex` 1. */
  function Init<V>(): State<V>
  {
    State(0, Pow2(0), [], map[], map[], map[])
  }

  /** `e`, found in the candidate list of type `n`, is a sound entry for it. */
  ghost predicate Listed<V>(s: State<V>, n: string, e: Entity)
  {
    && n in s.componentIndex && n in s.components
    && 0 <= e.uuid < |s.entities|
    && Has(e.mask, s.componentIndex[n])
    && e.uuid in s.components[n]
  }

  /**
   * What every operation keeps: identifiers are the positions in the entity
   * list, registration fills the flag table and the storage together, and each
   * candidate entry is a snapshot with its type's flag set, of an existing
   * entity, with a stored value.
   */
  ghost predicate Consistent<V>(s: State<V>)
  {
    && s.entityIndex == |s.entities|
    && (forall i :: 0 <= i < |s.entities| ==> s.entities[i].uuid == i)
    && s.components.Keys == s.componentIndex.Keys
    && s.candidates.Keys <= s.componentIndex.Keys
    && (forall n, k :: n in s.candidates && 0 <= k < |s.candidates[n]| ==> Listed(s, n, s.candidates[n][k]))
  }

  /**
   * `order` lists the registered type names in registration order: the k-th
   * got flag Pow2(k), and `bitIndex` is the flag the next one would get.
   */
  ghost predicate FlagHistory<V>(s: State<V>, order: seq<string>)
  {
    && (forall i, j :: 0 <= i < j < |order| ==> order[i] != order[j])
    && (forall n :: n in s.componentIndex <==> n in order)
    && (forall k :: 0 <= k < |order| ==> order[k] in s.componentIndex && s.componentIndex[order[k]] == Pow2(k))
    && s.bitIndex == Pow2(|order|)
  }

  ghost predicate Valid<V>(s: State<V>, order: seq<string>)
  {
    Consistent(s) && FlagHistory(s, order)
  }

  /** `CreateEntity`: a new entity with the next identifier and an empty mask. */
  function CreateStep<V>(s: State<V>): (t: Step<V, Entity>)
    ensures |t.post.entities| == |s.entities| + 1 && t.post.entityIndex == s.entityIndex + 1
    ensures t.post.components == s.components && t.post.componentIndex == s.componentIndex
    ensures t.post.candidates == s.candidates && t.post.bitIndex == s.bitIndex
    ensures t.events == [EntityCreated(t.result)]
  {
    var e := Entity(s.entityIndex, Zero);
    Step(s.(entityIndex := s.entityIndex + 1, entities := s.entities + [e]), e, [EntityCreated(e)])
  }

  /**
   * `RegisterComponent`: a known name changes nothing; a new one records the
   * current `bitIndex` as its flag and an empty storage, then doubles
   * `bitIndex`, and throws if the doubling made it smaller.
   */
  function RegisterStep<V>(s: State<V>, name: string): (t: Step<V, Status>)
    ensures t.post.entityIndex == s.entityIndex && t.post.entities == s.entities
    ensures t.post.candidates == s.candidates && t.events == []
    ensures t.post.components.Keys == s.components.Keys + {name}
    ensures forall n :: n in s.components ==> n in t.post.components && t.post.components[n] == s.components[n]
    ensures t.result != Done ==> name !in s.components && t.result == Thrown(FlagsExhausted)
  {
    if name in s.components then Step(s, Done, [])
    else
      var lastIndex := s.bitIndex;
      var post := s.(componentIndex := s.componentIndex[name := lastIndex],
                     components := s.components[name := map[]],
                     bitIndex := Double(lastIndex));
      Step(post, if Below(post.bitIndex, lastIndex) then Thrown(FlagsExhausted) else Done, [])
  }

  /**
   * `AddComponent`: the value is stored first; then, if the entity exists, its
   * flag is set in the authoritative mask and a snapshot of the updated entity
   * is appended to the type's candidate list.
   */
  function AddStep<V>(s: State<V>, entity: Entity, name: string, value: V): (t: Step<V, Status>)
    requires Consistent(s)
    ensures t.post.entityIndex == s.entityIndex && t.post.bitIndex == s.bitIndex
    ensures t.post.componentIndex == s.componentIndex && t.post.components.Keys == s.components.Keys
    ensures |t.post.entities| == |s.entities|
    ensures t.result == Done <==> name in s.components && 0 <= entity.uuid < |s.entities|
    ensures |t.events| == if t.result == Done then 1 else 0
  {
    if name !in s.components then Step(s, Thrown(ComponentNotRegistered(name)), [])
    else
      var u := entity.uuid;
      var stored := s.(components := s.components[name := s.components[name][u := value]]);
      if !(0 <= u < |s.entities|) then Step(stored, Thrown(EntityNotFound), [])
      else
        var e := Entity(u, Set(s.entities[u].mask, s.componentIndex[name]));
        var list := if name in s.candidates then s.candidates[name] else [];
        Step(stored.(entities := s.entities[u := e], candidates := s.candidates[name := list + [e]]),
             Done, [ComponentAdded(entity, name, value)])
  }

  /** The position of the first entry of `list` with identifier `uuid`, or |list|. */
  function FindFirst(list: seq<Entity>, uuid: int): (k: nat)
    ensures k <= |list|
    ensures forall j :: 0 <= j < k ==> list[j].uuid != uuid
    ensures k < |list| ==> list[k].uuid == uuid
  {
    if list == [] then 0
    else if list[0].uuid == uuid then 0
    else 1 + FindFirst(list[1..], uuid)
  }

  /**
   * `RemoveComponent`: clears the flag in the authoritative mask, erases the
   * first candidate entry with the entity's identifier and broadcasts the
   * stored value. The storage entry is left in place. The source looks the
   * candidate list up without checking that it exists.
   */
  function RemoveStep<V>(s: State<V>, entity: Entity, name: string): (t: Step<V, Status>)
    requires Consistent(s)
    requires name in s.components && 0 <= entity.uuid < |s.entities| ==> name in s.candidates
    ensures t.post.entityIndex == s.entityIndex && t.post.bitIndex == s.bitIndex
    ensures t.post.componentIndex == s.componentIndex && t.post.components == s.components
    ensures |t.post.entities| == |s.entities|
    ensures t.result == Done <==> name in s.components && 0 <= entity.uuid < |s.entities|
    ensures |t.events| <= 1
  {
    if name !in s.components then Step(s, Thrown(ComponentNotRegistered(name)), [])
    else
      var u := entity.uuid;
      if !(0 <= u < |s.entities|) then Step(s, Thrown(EntityNotFound), [])
      else
        var cleared := s.(entities := s.entities[u := Entity(u, Clear(s.entities[u].mask, s.componentIndex[name]))]);
        var list := s.candidates[name];
        var k := FindFirst(list, u);
        if k == |list| then Step(cleared, Done, [])
        else
          assert Listed(s, name, list[k]);
          Step(cleared.(candidates := s.candidates[name := list[..k] + list[k + 1..]]),
               Done, [ComponentRemoved(entity, name, s.components[name][u])])
  }

  /**
   * `GetComponent`: the stored value when the entity exists and its mask holds
   * the type's flag, else nothing. The source reads the storage with the map's
   * `operator[]`, which first inserts `blank` (the default-constructed value of
   * the type) when there is no entry.
   */
  function GetStep<V>(s: State<V>, entity: Entity, name: string, blank: V): (t: Step<V, Result<Option<V>>>)
    requires Consistent(s)
    ensures t.post.entityIndex == s.entityIndex && t.post.bitIndex == s.bitIndex && t.post.entities == s.entities
    ensures t.post.componentIndex == s.componentIndex && t.post.candidates == s.candidates
    ensures t.post.components.Keys == s.components.Keys && t.events == []
    ensures t.result.Err? <==> name !in s.components
  {
    if name !in s.components then Step(s, Err(ComponentNotRegistered(name)), [])
    else
      var u := entity.uuid;
      if 0 <= u < |s.entities| && Has(s.entities[u].mask, s.componentIndex[name]) then
        if u in s.components[name] then Step(s, Ok(Some(s.components[name][u])), [])
        else Step(s.(components := s.components[name := s.components[name][u := blank]]), Ok(Some(blank)), [])
      else Step(s, Ok(None), [])
  }

  /** `HasComponent`: whether `GetComponent` returns a value. */
  function HasStep<V>(s: State<V>, entity: Entity, name: string, blank: V): (t: Step<V, Result<bool>>)
    requires Consistent(s)
    ensures t.result.Err? <==> name !in s.components
    ensures t.result == Ok(true) <==>
      name in s.components && 0 <= entity.uuid < |s.entities| && Has(s.entities[entity.uuid].mask, s.componentIndex[name])
    ensures t.post.entities == s.entities && t.post.candidates == s.candidates && t.events == []
  {
    var g := GetStep(s, entity, name, blank);
    Step(g.post, if g.result.Ok? then Ok(g.result.value.Some?) else Err(g.result.error), g.events)
  }

  /** The `GetComponentNames` recursion: pushes the type names, in call order. */
  function GetComponentNames(names: seq<string>, types: seq<string>): (r: seq<string>)
    ensures r == names + types
    decreases |types|
  {
    if |types| == 0 then names
    else if |types| == 1 then names + [types[0]]
    else GetComponentNames(names + [types[0]], types[1..])
  }

  /** The position of the first name that is not registered, or |names|. */
  function FirstUnregistered<V>(s: State<V>, names: seq<string>): (k: nat)
    ensures k <= |names|
    ensures forall j :: 0 <= j < k ==> names[j] in s.components
    ensures k < |names| ==> names[k] !in s.components
  {
    if names == [] then 0
    else if names[0] !in s.components then 0
    else 1 + FirstUnregistered(s, names[1..])
  }

  /**
   * `individualComponentVecs[name]` for each of `names`: the map's `operator[]`
   * inserts an empty list for a name that has none.
   */
  function Touch(lists: map<string, seq<Entity>>, names: seq<string>): map<string, seq<Entity>>
  {
    if names == [] then lists
    else
      var prior := Touch(lists, names[..|names| - 1]);
      var n := names[|names| - 1];
      if n in prior then prior else prior[n := []]
  }
  /** Touching keeps every existing list and gives each name a list. */
  lemma {:induction false} TouchCovers(lists: map<string, seq<Entity>>, names: seq<string>)
    ensures forall n :: n in lists ==> n in Touch(lists, names) && Touch(lists, names)[n] == lists[n]
    ensures forall i :: 0 <= i < |names| ==> names[i] in Touch(lists, names)
  {
    if names != [] {
      var init := names[..|names| - 1];
      TouchCovers(lists, init);
      forall i | 0 <= i < |names| - 1
        ensures names[i] in Touch(lists, names)
      {
        assert names[i] == init[i];
      }
    }
  }

  /** Touching adds no name other than the given ones, each with an empty list. */
  lemma {:induction false} TouchAddsOnlyNames(lists: map<string, seq<Entity>>, names: seq<string>)
    ensures forall n :: n in Touch(lists, names) && n !in lists ==> n in names && Touch(lists, names)[n] == []
  {
    if names != [] {
      var init := names[..|names| - 1];
      TouchAddsOnlyNames(lists, init);
      TouchCovers(lists, init);
      forall n | n in Touch(lists, names) && n !in lists
        ensures n in names && Touch(lists, names)[n] == []
      {
        if n in Touch(lists, init) {
          assert n in init;
          var i :| 0 <= i < |init| && init[i] == n;
          assert names[i] == n;
        }
      }
    }
  }

  /** Touching one more name extends the previous result by that name. */
  lemma TouchNext(lists: map<string, seq<Entity>>, names: seq<string>, j: nat)
    requires j < |names|
    ensures var prior := Touch(lists, names[..j]);
      Touch(lists, names[..j + 1]) == if names[j] in prior then prior else prior[names[j] := []]
  {
    assert names[..j + 1][..j] == names[..j];
  }


  /** The query field: the union of the flags of `names`. */
  function QueryMask(flags: map<string, Bits>, names: seq<string>): (r: Bits)
    requires forall n :: n in names ==> n in flags
    ensures forall i :: 0 <= i < |names| ==> Has(r, flags[names[i]])
  {
    if names == [] then Zero
    else Set(QueryMask(flags, names[..|names| - 1]), flags[names[|names| - 1]])
  }

  /** The candidate-list length of each of `names`, in call order. */
  function Sizes(lists: map<string, seq<Entity>>, names: seq<string>): seq<int>
    requires forall n :: n in names ==> n in lists
  {
    seq(|names|, j requires 0 <= j < |names| => |lists[names[j]]|)
  }

  /** `std::min_element` with a strict less-than: the position of the first minimum. */
  function FirstMin(xs: seq<int>): (r: nat)
    requires |xs| > 0
    ensures r < |xs|
    ensures forall j :: 0 <= j < |xs| ==> xs[r] <= xs[j]
    ensures forall j :: 0 <= j < r ==> xs[r] < xs[j]
  {
    if |xs| == 1 then 0
    else
      var best := FirstMin(xs[..|xs| - 1]);
      if xs[|xs| - 1] < xs[best] then |xs| - 1 else best
  }
  /** FirstMin is the only position that is a minimum and strictly below every earlier entry. */
  lemma FirstMinUnique(xs: seq<int>, m: nat)
    requires m < |xs|
    requires forall j :: 0 <= j < |xs| ==> xs[m] <= xs[j]
    requires forall j :: 0 <= j < m ==> xs[m] < xs[j]
    ensures FirstMin(xs) == m
  {
  }


  /** The entries of `list` whose mask holds every bit of `field`, in list order. */
  function Select(list: seq<Entity>, field: Bits): (r: seq<Entity>)
    ensures |r| <= |list|
    ensures forall x :: x in r ==> x in list && Has(x.mask, field)
    ensures forall x :: x in list && Has(x.mask, field) ==> x in r
  {
    if list == [] then []
    else
      var last := list[|list| - 1];
      Select(list[..|list| - 1], field) + if Has(last.mask, field) then [last] else []
  }

  /** A kept entry occurs in the result as often as in the list; any other entry does not occur. */
  lemma {:induction false} SelectCounts(list: seq<Entity>, field: Bits)
    ensures forall x :: multiset(Select(list, field))[x] == if Has(x.mask, field) then multiset(list)[x] else 0
  {
    if list != [] {
      var init, last := list[..|list| - 1], list[|list| - 1];
      SelectCounts(init, field);
      assert list == init + [last];
    }
  }

  /** Filtering a concatenation filters each part and keeps them in order. */
  lemma {:induction false} SelectAppend(a: seq<Entity>, b: seq<Entity>, field: Bits)
    ensures Select(a + b, field) == Select(a, field) + Select(b, field)
  {
    if b == [] {
      assert a + b == a;
    } else {
      var init, last := b[..|b| - 1], b[|b| - 1];
      var tail := if Has(last.mask, field) then [last] else [];
      calc {
        Select(a + b, field);
      == { assert a + b == (a + init) + [last]; }
        Select((a + init) + [last], field);
      == { SelectSnoc(a + init, last, field); }
        Select(a + init, field) + tail;
      == { SelectAppend(a, init, field); }
        (Select(a, field) + Select(init, field)) + tail;
      ==
        Select(a, field) + (Select(init, field) + tail);
      == { assert b == init + [last]; SelectSnoc(init, last, field); }
        Select(a, field) + Select(b, field);
      }
    }
  }

  /** Filtering a list extended by one entry extends the filtered list by that entry if it qualifies. */
  lemma SelectSnoc(list: seq<Entity>, e: Entity, field: Bits)
    ensures Select(list + [e], field) == Select(list, field) + if Has(e.mask, field) then [e] else []
  {
    assert (list + [e])[..|list|] == list;
  }

  /**
   * `EntitiesWith`: with no type, every entity. Otherwise the lists of the
   * registered names before the first unregistered one are touched, and that
   * one is thrown; when all are registered, the shortest requested candidate
   * list (the first on ties) is filtered by the union of the requested flags.
   */
  function QueryStep<V>(s: State<V>, names: seq<string>): (t: Step<V, Result<seq<Entity>>>)
    requires Consistent(s)
    ensures t.post.entityIndex == s.entityIndex && t.post.bitIndex == s.bitIndex && t.post.entities == s.entities
    ensures t.post.componentIndex == s.componentIndex && t.post.components == s.components && t.events == []
    ensures t.result.Ok? <==> forall i :: 0 <= i < |names| ==> names[i] in s.components
  {
    if names == [] then Step(s, Ok(s.entities), [])
    else
      var k := FirstUnregistered(s, names);
      var touched := s.(candidates := Touch(s.candidates, names[..k]));
      if k < |names| then Step(touched, Err(ComponentNotRegistered(names[k])), [])
      else
        TouchCovers(s.candidates, names);
        assert names[..k] == names;
        var lists := touched.candidates;
        var list := lists[names[FirstMin(Sizes(lists, names))]];
        Step(touched, Ok(Select(list, QueryMask(s.componentIndex, names))), [])
  }
}
