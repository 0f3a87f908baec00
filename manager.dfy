/**
 * The class `ECS` of src/Manager.hpp: its fields, updated in place by its
 * methods, with the loops of the source. Each method is proved to do to the
 * state exactly what the matching step function of EcsModel says, and to keep
 * the invariant `Valid()`; the properties of those step functions are proved
 * in EcsProperties.
 */
module Manager {
  import opened Bitfield
  import opened EcsModel
  import EcsProperties

  class ECS<V> {
    var entityIndex: int
    var bitIndex: Bits
    var entities: seq<Entity>
    var components: map<string, map<int, V>>
    var componentIndex: map<string, Bits>
    var individualComponentVecs: map<string, seq<Entity>>

    /**
     * The default-constructed value `T()` of each component type, which the
     * source's map `operator[]` inserts when it reads a missing entry.
     */
    const Blank: string -> V

    /** Every event broadcast on the event manager so far, in order. */
    ghost var log: seq<Event<V>>

    /** The registered type names, in registration order. */
    ghost var registered: seq<string>

    /** The fields, as a value. */
    function Abs(): State<V>
      reads this
    {
      State(entityIndex, bitIndex, entities, components, componentIndex, individualComponentVecs)
    }

    ghost predicate Valid()
      reads this
    {
      EcsModel.Valid(Abs(), registered)
    }

    constructor (blank: string -> V)
      ensures Valid() && Abs() == Init() && Blank == blank
      ensures log == [] && registered == []
    {
      bitIndex := Pow2(0);
      entityIndex := 0;
      entities := [];
      components := map[];
      componentIndex := map[];
      individualComponentVecs := map[];
      Blank := blank;
      log := [];
      registered := [];
    }

    /** Whether a storage exists for the type, i.e. whether it was registered. */
    function ComponentIsRegistered(componentName: string): (r: bool)
      reads this
      requires components.Keys == componentIndex.Keys
      ensures r <==> componentName in componentIndex
    {
      componentName in components
    }

    method CreateEntity() returns (e: Entity)
      requires Valid()
      modifies this
      ensures Valid() && registered == old(registered)
      ensures e.uuid == old(entityIndex)
      ensures var t := CreateStep(old(Abs()));
        Abs() == t.post && e == t.result && log == old(log) + t.events
    {
      EcsProperties.CreateKeepsValid(Abs(), registered);
      e := Entity(entityIndex, Zero);
      entityIndex := entityIndex + 1;
      entities := entities + [e];
      log := log + [EntityCreated(e)];
    }

    method RegisterComponent(componentName: string) returns (r: Status)
      requires Valid()
      modifies this
      ensures Valid()
      ensures registered == old(registered) + if componentName in old(components) then [] else [componentName]
      ensures var t := RegisterStep(old(Abs()), componentName);
        Abs() == t.post && r == t.result && log == old(log)
    {
      ghost var s, order := Abs(), registered;
      r := Done;
      if componentName !in components {
        componentIndex := componentIndex[componentName := bitIndex];
        components := components[componentName := map[]];
        registered := registered + [componentName];

        var lastIndex := bitIndex;
        bitIndex := Double(bitIndex);
        if Below(bitIndex, lastIndex) {
          r := Thrown(FlagsExhausted);
        }
      }
      assert Abs() == RegisterStep(s, componentName).post;
      EcsProperties.RegisterKeepsValid(s, order, componentName);
    }

    method AddComponent(entity: Entity, componentName: string, component: V) returns (r: Status)
      requires Valid()
      modifies this
      ensures Valid() && registered == old(registered)
      ensures var t := AddStep(old(Abs()), entity, componentName, component);
        Abs() == t.post && r == t.result && log == old(log) + t.events
    {
      ghost var s, order := Abs(), registered;
      if !ComponentIsRegistered(componentName) {
        return Thrown(ComponentNotRegistered(componentName));
      }

      var container := components[componentName];
      container := container[entity.uuid := component];
      var componentFlag := componentIndex[componentName];

      components := components[componentName := container];

      var entityFound := MarkEntity(entity, componentName, componentFlag, component);
      r := if entityFound then Done else Thrown(EntityNotFound);
      assert Abs() == AddStep(s, entity, componentName, component).post;
      EcsProperties.AddKeepsValid(s, order, entity, componentName, component);
    }

    /**
     * The loop of AddComponent: sets the flag in the mask of the entity with
     * the given identifier, appends that updated entity to the type's
     * candidate list (creating the list if need be) and broadcasts the event.
     */
    method MarkEntity(entity: Entity, componentName: string, componentFlag: Bits, component: V)
      returns (entityFound: bool)
      requires forall j :: 0 <= j < |entities| ==> entities[j].uuid == j
      modifies this
      ensures entityFound <==> 0 <= entity.uuid < |old(entities)|
      ensures entityIndex == old(entityIndex) && bitIndex == old(bitIndex) && registered == old(registered)
      ensures components == old(components) && componentIndex == old(componentIndex)
      ensures entityFound ==>
        var e := Entity(entity.uuid, Set(old(entities)[entity.uuid].mask, componentFlag));
        var list := if componentName in old(individualComponentVecs) then old(individualComponentVecs)[componentName] else [];
        && entities == old(entities)[entity.uuid := e]
        && individualComponentVecs == old(individualComponentVecs)[componentName := list + [e]]
        && log == old(log) + [ComponentAdded(entity, componentName, component)]
      ensures !entityFound ==>
        entities == old(entities) && individualComponentVecs == old(individualComponentVecs) && log == old(log)
    {
      entityFound := false;
      var i := 0;
      while i < |entities|
        invariant 0 <= i <= |entities| == |old(entities)|
        invariant entityIndex == old(entityIndex) && bitIndex == old(bitIndex) && registered == old(registered)
        invariant components == old(components) && componentIndex == old(componentIndex)
        invariant entityFound <==> 0 <= entity.uuid < i
        invariant forall j :: i <= j < |entities| ==> entities[j] == old(entities)[j]
        invariant entityFound ==>
          var e := Entity(entity.uuid, Set(old(entities)[entity.uuid].mask, componentFlag));
          var list := if componentName in old(individualComponentVecs) then old(individualComponentVecs)[componentName] else [];
          && entities == old(entities)[entity.uuid := e]
          && individualComponentVecs == old(individualComponentVecs)[componentName := list + [e]]
          && log == old(log) + [ComponentAdded(entity, componentName, component)]
        invariant !entityFound ==>
          entities == old(entities) && individualComponentVecs == old(individualComponentVecs) && log == old(log)
      {
        if entities[i].uuid == entity.uuid {
          entityFound := true;
          var e := Entity(entities[i].uuid, Set(entities[i].mask, componentFlag));
          entities := entities[i := e];
          var candidates := if componentName in individualComponentVecs then individualComponentVecs[componentName] else [];
          individualComponentVecs := individualComponentVecs[componentName := candidates + [e]];
          log := log + [ComponentAdded(entity, componentName, component)];
        }
        i := i + 1;
      }
    }

    method RemoveComponent(entity: Entity, componentName: string) returns (r: Status)
      requires Valid()
      requires componentName in components && 0 <= entity.uuid < |entities| ==> componentName in individualComponentVecs
      modifies this
      ensures Valid() && registered == old(registered)
      ensures var t := RemoveStep(old(Abs()), entity, componentName);
        Abs() == t.post && r == t.result && log == old(log) + t.events
    {
      ghost var s, order := Abs(), registered;
      if !ComponentIsRegistered(componentName) {
        return Thrown(ComponentNotRegistered(componentName));
      }

      var componentFlag := componentIndex[componentName];

      if 0 <= entity.uuid < |entities| {
        forall k | 0 <= k < |individualComponentVecs[componentName]|
          ensures individualComponentVecs[componentName][k].uuid in components[componentName]
        {
          assert Listed(s, componentName, individualComponentVecs[componentName][k]);
        }
      }
      var entityFound := UnmarkEntity(entity, componentName, componentFlag);
      r := if entityFound then Done else Thrown(EntityNotFound);
      assert Abs() == RemoveStep(s, entity, componentName).post;
      EcsProperties.RemoveKeepsValid(s, order, entity, componentName);
    }

    /**
     * The loop of RemoveComponent: clears the flag in the mask of the entity
     * with the given identifier, then erases the first entry with that
     * identifier from the type's candidate list, broadcasting the stored value.
     */
    method UnmarkEntity(entity: Entity, componentName: string, componentFlag: Bits) returns (entityFound: bool)
      requires forall j :: 0 <= j < |entities| ==> entities[j].uuid == j
      requires componentName in components
      requires 0 <= entity.uuid < |entities| ==> componentName in individualComponentVecs
      requires 0 <= entity.uuid < |entities| ==>
        forall k :: 0 <= k < |individualComponentVecs[componentName]| ==>
          individualComponentVecs[componentName][k].uuid in components[componentName]
      modifies this
      ensures entityFound <==> 0 <= entity.uuid < |old(entities)|
      ensures entityIndex == old(entityIndex) && bitIndex == old(bitIndex) && registered == old(registered)
      ensures components == old(components) && componentIndex == old(componentIndex)
      ensures entityFound ==>
        var u := entity.uuid;
        var list := old(individualComponentVecs)[componentName];
        var k := FindFirst(list, u);
        && entities == old(entities)[u := Entity(u, Clear(old(entities)[u].mask, componentFlag))]
        && (k == |list| ==> individualComponentVecs == old(individualComponentVecs) && log == old(log))
        && (k < |list| ==>
              && individualComponentVecs == old(individualComponentVecs)[componentName := list[..k] + list[k + 1..]]
              && log == old(log) + [ComponentRemoved(entity, componentName, components[componentName][u])])
      ensures !entityFound ==>
        entities == old(entities) && individualComponentVecs == old(individualComponentVecs) && log == old(log)
    {
      entityFound := false;
      var i := 0;
      while i < |entities|
        invariant 0 <= i <= |entities|
        invariant !(0 <= entity.uuid < i)
        invariant entities == old(entities) && individualComponentVecs == old(individualComponentVecs) && log == old(log)
      {
        if entities[i].uuid == entity.uuid {
          entityFound := true;
          var e := Entity(entities[i].uuid, Clear(entities[i].mask, componentFlag));
          entities := entities[i := e];

          var componentVector := individualComponentVecs[componentName];
          var k := 0;
          while k < |componentVector|
            invariant 0 <= k <= |componentVector|
            invariant forall j :: 0 <= j < k ==> componentVector[j].uuid != e.uuid
            invariant individualComponentVecs == old(individualComponentVecs) && log == old(log)
          {
            if componentVector[k].uuid == e.uuid {
              var componentData := components[componentName][entity.uuid];
              individualComponentVecs := individualComponentVecs[componentName := componentVector[..k] + componentVector[k + 1..]];
              log := log + [ComponentRemoved(entity, componentName, componentData)];
              assert k == FindFirst(componentVector, entity.uuid);
              return;
            }
            k := k + 1;
          }
          return;
        }
        i := i + 1;
      }
    }

    method GetComponent(entity: Entity, componentName: string) returns (r: Result<Option<V>>)
      requires Valid()
      modifies this
      ensures Valid() && registered == old(registered) && log == old(log)
      ensures var t := GetStep(old(Abs()), entity, componentName, Blank(componentName));
        Abs() == t.post && r == t.result
    {
      EcsProperties.GetKeepsValid(Abs(), registered, entity, componentName, Blank(componentName));
      if !ComponentIsRegistered(componentName) {
        return Err(ComponentNotRegistered(componentName));
      }

      var componentFlag := componentIndex[componentName];

      var i := 0;
      while i < |entities|
        invariant 0 <= i <= |entities|
        invariant forall j :: 0 <= j < i ==> !(entities[j].uuid == entity.uuid && Has(entities[j].mask, componentFlag))
        invariant Abs() == old(Abs()) && log == old(log) && registered == old(registered)
      {
        var e := entities[i];
        if e.uuid == entity.uuid {
          if Has(e.mask, componentFlag) {
            var container := components[componentName];
            if entity.uuid !in container {
              container := container[entity.uuid := Blank(componentName)];
              components := components[componentName := container];
            }
            return Ok(Some(container[entity.uuid]));
          }
        }
        i := i + 1;
      }

      return Ok(None);
    }

    method HasComponent(entity: Entity, componentName: string) returns (r: Result<bool>)
      requires Valid()
      modifies this
      ensures Valid() && registered == old(registered) && log == old(log)
      ensures var t := HasStep(old(Abs()), entity, componentName, Blank(componentName));
        Abs() == t.post && r == t.result
    {
      var component := GetComponent(entity, componentName);
      r := if component.Ok? then Ok(component.value.Some?) else Err(component.error);
    }

    method EntitiesWith(types: seq<string>) returns (r: Result<seq<Entity>>)
      requires Valid()
      modifies this
      ensures Valid() && registered == old(registered) && log == old(log)
      ensures var t := QueryStep(old(Abs()), types);
        Abs() == t.post && r == t.result
    {
      ghost var s, order := Abs(), registered;
      var componentNames := GetComponentNames([], types);
      assert componentNames == types;

      if |componentNames| == 0 {
        var requestedEntities: seq<Entity> := [];
        for j := 0 to |entities|
          invariant requestedEntities == entities[..j]
        {
          requestedEntities := requestedEntities + [entities[j]];
        }
        assert requestedEntities == entities;
        r := Ok(requestedEntities);
      } else {
        var componentListSizes, k := ListSizes(componentNames);
        if k < |componentNames| {
          r := Err(ComponentNotRegistered(componentNames[k]));
        } else {
          assert componentNames[..k] == componentNames;
          var requestedEntities := Scan(componentNames, componentListSizes);
          r := Ok(requestedEntities);
        }
      }
      assert r == QueryStep(s, types).result;
      assert Abs() == QueryStep(s, types).post;
      EcsProperties.QueryKeepsValid(s, order, types);
    }

    /**
     * The rest of EntitiesWith once every name is known to be registered:
     * builds the combined mask, picks the first shortest candidate list and
     * keeps its entries that carry the whole mask.
     */
    method Scan(componentNames: seq<string>, componentListSizes: seq<(string, int)>)
      returns (requestedEntities: seq<Entity>)
      requires |componentNames| > 0 && |componentListSizes| == |componentNames|
      requires forall q :: 0 <= q < |componentNames| ==> componentNames[q] in componentIndex
      requires forall q :: 0 <= q < |componentNames| ==> componentNames[q] in individualComponentVecs
      requires forall q :: 0 <= q < |componentNames| ==>
        componentListSizes[q] == (componentNames[q], |individualComponentVecs[componentNames[q]]|)
      ensures var lists := individualComponentVecs;
        requestedEntities
          == Select(lists[componentNames[FirstMin(Sizes(lists, componentNames))]], QueryMask(componentIndex, componentNames))
    {
      var field := CombinedMask(componentIndex, componentNames);
      var smallest := SmallestList(componentListSizes);
      ghost var sizes := Sizes(individualComponentVecs, componentNames);
      assert forall q :: 0 <= q < |sizes| ==> sizes[q] == componentListSizes[q].1;
      FirstMinUnique(sizes, smallest);
      var smallestComponentList := componentListSizes[smallest].0;
      var entitySearchVector := individualComponentVecs[smallestComponentList];
      requestedEntities := Matching(entitySearchVector, field);
    }

    /**
     * The first loop of EntitiesWith: for each requested name, in order, throws
     * if it is not registered, and otherwise records the length of its
     * candidate list, which the map's `operator[]` creates empty when missing.
     * `k` is the position of the name that throws, or the number of names.
     */
    method ListSizes(componentNames: seq<string>) returns (componentListSizes: seq<(string, int)>, k: nat)
      requires components.Keys == componentIndex.Keys
      modifies this
      ensures k == FirstUnregistered(old(Abs()), componentNames)
      ensures individualComponentVecs == Touch(old(individualComponentVecs), componentNames[..k])
      ensures entityIndex == old(entityIndex) && bitIndex == old(bitIndex) && entities == old(entities)
      ensures components == old(components) && componentIndex == old(componentIndex)
      ensures registered == old(registered) && log == old(log)
      ensures k == |componentNames| ==>
        && |componentListSizes| == k
        && (forall q :: 0 <= q < k ==> componentNames[q] in individualComponentVecs)
        && (forall q :: 0 <= q < k ==> componentListSizes[q] == (componentNames[q], |individualComponentVecs[componentNames[q]]|))
    {
      componentListSizes := [];
      for j := 0 to |componentNames|
        invariant |componentListSizes| == j
        invariant forall q :: 0 <= q < j ==> componentNames[q] in components && componentNames[q] in individualComponentVecs
        invariant individualComponentVecs == Touch(old(individualComponentVecs), componentNames[..j])
        invariant forall q :: 0 <= q < j ==>
          componentListSizes[q] == (componentNames[q], |individualComponentVecs[componentNames[q]]|)
        invariant entityIndex == old(entityIndex) && bitIndex == old(bitIndex) && entities == old(entities)
        invariant components == old(components) && componentIndex == old(componentIndex)
        invariant registered == old(registered) && log == old(log)
      {
        var componentName := componentNames[j];
        if !ComponentIsRegistered(componentName) {
          assert FirstUnregistered(old(Abs()), componentNames) == j;
          return componentListSizes, j;
        }
        TouchNext(old(individualComponentVecs), componentNames, j);
        if componentName !in individualComponentVecs {
          individualComponentVecs := individualComponentVecs[componentName := []];
        }
        componentListSizes := componentListSizes + [(componentName, |individualComponentVecs[componentName]|)];
      }
      assert componentNames[..|componentNames|] == componentNames;
      assert FirstUnregistered(old(Abs()), componentNames) == |componentNames|;
      k := |componentNames|;
    }
  }

  /** The second loop of EntitiesWith: the union of the flags of the names. */
  method CombinedMask(flags: map<string, Bits>, names: seq<string>) returns (field: Bits)
    requires forall n :: n in names ==> n in flags
    ensures field == QueryMask(flags, names)
  {
    field := Zero;
    for j := 0 to |names|
      invariant field == QueryMask(flags, names[..j])
    {
      assert names[..j + 1][..j] == names[..j];
      field := Set(field, flags[names[j]]);
    }
    assert names[..|names|] == names;
  }

  /**
   * The `std::min_element` of EntitiesWith: the position of the first entry
   * with the smallest list length.
   */
  method SmallestList(componentListSizes: seq<(string, int)>) returns (smallest: nat)
    requires |componentListSizes| > 0
    ensures smallest < |componentListSizes|
    ensures forall j :: 0 <= j < |componentListSizes| ==> componentListSizes[smallest].1 <= componentListSizes[j].1
    ensures forall j :: 0 <= j < smallest ==> componentListSizes[smallest].1 < componentListSizes[j].1
  {
    smallest := 0;
    for j := 1 to |componentListSizes|
      invariant smallest < j
      invariant forall q :: 0 <= q < j ==> componentListSizes[smallest].1 <= componentListSizes[q].1
      invariant forall q :: 0 <= q < smallest ==> componentListSizes[smallest].1 < componentListSizes[q].1
    {
      if componentListSizes[j].1 < componentListSizes[smallest].1 {
        smallest := j;
      }
    }
  }

  /** The last loop of EntitiesWith: the entries of `list` that carry every flag of `field`. */
  method Matching(list: seq<Entity>, field: Bits) returns (requested: seq<Entity>)
    ensures requested == Select(list, field)
  {
    requested := [];
    for j := 0 to |list|
      invariant requested == Select(list[..j], field)
    {
      assert list[..j + 1][..j] == list[..j];
      if Has(list[j].mask, field) {
        requested := requested + [list[j]];
      }
    }
    assert list[..|list|] == list;
  }
}
