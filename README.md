# ECS: a verified model of the entity/component store

This project models the entity/component store `ECS` of src/Manager.hpp in Dafny and proves what its operations do. It covers:

- **Entities.** `CreateEntity` hands out consecutive identifiers and appends each new entity, with an empty mask, to the authoritative entity list.
- **Component types.** `RegisterComponent` gives each new type name a flag from a 32-bit `bitIndex`: 1, 2, 4, … in registration order. It also gives the type an empty storage, which maps entity identifiers to values.
- **Components.**
  - `AddComponent` stores a value and sets the type's flag in the entity's mask. It then appends a snapshot of the updated entity to the type's candidate list.
  - `RemoveComponent` clears the flag and erases the first candidate entry for the entity.
  - `GetComponent` and `HasComponent` read a value back.
- **Queries.** `EntitiesWith` picks the shortest candidate list among the requested types and keeps the entries whose mask holds every requested flag.

Every broadcast on the event manager (`EntityCreated`, `ComponentAdded`, `ComponentRemoved`) is recorded in a ghost event log.

Files:

- `bitfield.dfy` (module `Bitfield`): the 32-bit word of `bitfield::Bitfield`.
  - A word is the set of its one-bit positions.
  - `Set`, `Clear` and `Has` are or, and-not, and "every bit of the flag is present".
  - `Double` is `*= 2` modulo 2^32, and `Below` is the unsigned `<`.
- `ecs_model.dfy` (module `EcsModel`): the fields of `ECS` as a value `State`, plus one pure step function per operation.
  - Each step function returns the new state, the result and the broadcast events.
  - A thrown exception is a `Thrown`/`Err` result, and the changes made before the throw are kept.
  - Also here: the invariants `Consistent` and `FlagHistory`.
- `manager.dfy` (module `Manager`): the class `ECS` with the source's fields and loops.
  - The constructor sets up the empty store and establishes `Valid()`. Each operation's method (`CreateEntity`, `RegisterComponent`, `AddComponent`, `RemoveComponent`, `GetComponent`, `HasComponent`, `EntitiesWith`) is proved to change the fields exactly as its step function says, and to keep `Valid()`.
  - The loop helpers (`MarkEntity`, `UnmarkEntity`, `ListSizes`, `Scan`, `CombinedMask`, `SmallestList`, `Matching`) have no step function of their own; each is proved against its own contract, which the operation's method then uses.
- `ecs_properties.dfy` (module `EcsProperties`): what the step functions guarantee.
- `ecs_scenarios.dfy` (module `EcsScenarios`): three runs of several operations, stated for any valid store.

Behaviour of the source worth knowing, all of it modelled as written:

- **The 32nd registration throws.** The message at src/Manager.hpp:127 says there are 32 flags because the word is a `uint32`. Yet `bitIndex` is doubled in 32 bits right after the 32nd fresh registration takes the flag 2^31, so the overflow test fires on that registration, not on a 33rd. That registration is recorded before the exception. Every later fresh registration gets the flag 0 and does not throw (`RegisterFreshFlag`, `RegisteredFlags`).
- **Remove leaves storage in place.** `RemoveComponent` reads the stored value for its event but never erases the storage entry, so a type with flag 0 still reads as present after removal (`RemoveFromEntity`, `RemoveAfterAdd`).
- **Candidate lists drift from the masks.** An entity added twice is listed twice and returned twice by a query (`QueryReturnsTwice`), and a listed entry is a snapshot that can be stale, so a query can miss an entity that has every requested component (`QueryMissesEntity`).
- **Remove without a candidate list.** `RemoveComponent` dereferences the type's candidate list without checking that it exists. The model makes its existence a precondition, as stated under "Left out".

## Model

| member | source | states |
|---|---|---|
| Manager.ECS.constructor | src/Manager.hpp:46-50 | `bitIndex` is 1 and the counter 0, there are no entities, types or lists, the log is empty, and `Valid()` holds |
| Manager.ECS.ComponentIsRegistered | src/Manager.hpp:105-108 | true exactly when the name has a flag (storage and flag table have the same keys) |
| Manager.ECS.CreateEntity | src/Manager.hpp:52-61 | the entity returned has the old counter as identifier; the state becomes CreateStep's, one EntityCreated is logged, and `Valid()` is kept |
| EcsProperties.CreateAppendsNext | src/Manager.hpp:52-61 | the new entity has identifier `entityIndex` and an empty mask, the counter grows by one, the entity list grows by exactly that entity (at the position of its identifier), nothing else changes, one EntityCreated |
| EcsProperties.CreateKeepsValid | src/Manager.hpp:52-56 | creating an entity keeps identifiers equal to positions and keeps every other invariant |
| Manager.ECS.RegisterComponent | src/Manager.hpp:111-130 | the state becomes RegisterStep's, the result is its status, a fresh name is appended to the registration order, and `Valid()` is kept |
| EcsProperties.RegisterKnownUnchanged | src/Manager.hpp:118-129 | registering a known name changes nothing (flag, storage, `bitIndex`) and throws nothing |
| EcsProperties.RegisterFreshFlag | src/Manager.hpp:118-128 | the n-th fresh registration (from 0) adds the flag 2^n (0 once n reaches 32) and an empty storage for the name and changes no other type, entity, list or counter, broadcasts nothing, and throws the flags-exhausted error exactly when n is 31, with the record kept |
| EcsProperties.RegisterNextFlag | src/Manager.hpp:120-124 | after a fresh registration, `bitIndex` is 2^(n+1) and the k-th registered name has flag 2^k |
| EcsProperties.RegisterRecordsName | src/Manager.hpp:120-121 | after a fresh registration, the names with a flag are exactly the registered names plus the new one |
| EcsProperties.RegisterOrderDistinct | src/Manager.hpp:118-121 | a name is recorded once: the registration order has no repeats |
| EcsProperties.RegisterExtendsHistory | src/Manager.hpp:120-124 | a fresh registration extends the flag history by the new name |
| EcsProperties.RegisterKeepsConsistent | src/Manager.hpp:120-121 | a fresh registration keeps the candidate-list invariant and the equal key sets of storage and flag table |
| EcsProperties.RegisterKeepsValid | src/Manager.hpp:111-130 | any registration keeps the invariant, with the order extended exactly when the name is new |
| EcsProperties.RegisteredFlags | src/Manager.hpp:120-128 | the first 32 registered names have non-zero one-bit flags, any two different names have disjoint flags, and names after the 32nd have flag 0 |
| Manager.ECS.AddComponent | src/Manager.hpp:132-177 | the state becomes AddStep's (storage written before the entity lookup), the result is its status, its events are logged, and `Valid()` is kept |
| Manager.ECS.MarkEntity | src/Manager.hpp:148-171 | reports whether the identifier exists; if it does, only that entity's mask gains the flag, the type's list gets exactly one snapshot of it appended (created if missing) and one ComponentAdded is logged; otherwise nothing changes |
| EcsProperties.AddUnregistered | src/Manager.hpp:137-140 | with an unregistered type: ComponentNotRegistered, no state change, no event |
| EcsProperties.AddUnknownEntity | src/Manager.hpp:142-176 | with an unknown identifier: the value is stored anyway and no other stored value changes, then EntityNotFound is thrown; entities, lists, flags and counters are unchanged and there is no event |
| EcsProperties.AddToEntity | src/Manager.hpp:142-170 | on an existing entity: its mask gains the flag and keeps its other bits, no other entity changes, the candidate lists change only at this type (no list appears for another), the type's list becomes the old list plus one snapshot of the updated entity (even if already listed), the storage changes only at this type and identifier, flags and counters stay, and one ComponentAdded is broadcast |
| EcsProperties.AddThenGet | src/Manager.hpp:132-332 | after adding to an existing entity, GetComponent returns the added value without changing the state, and HasComponent answers true |
| EcsProperties.AddTwiceOverwrites | src/Manager.hpp:143-159 | a second add overwrites the stored value, and the list still receives a second entry |
| EcsProperties.AddKeepsConsistent | src/Manager.hpp:142-170 | adding keeps identifiers equal to positions, and keeps every candidate entry a flagged snapshot of an existing entity with a stored value |
| EcsProperties.AddKeepsValid | src/Manager.hpp:132-177 | adding keeps the whole invariant, flag history included |
| Manager.ECS.RemoveComponent | src/Manager.hpp:179-226 | the state becomes RemoveStep's, the result is its status, its events are logged, and `Valid()` is kept |
| Manager.ECS.UnmarkEntity | src/Manager.hpp:191-219 | reports whether the identifier exists; if it does, the flag is cleared from its mask, the first list entry with its identifier is erased and ComponentRemoved carries the stored value; otherwise nothing changes |
| EcsProperties.RemoveFailures | src/Manager.hpp:184-225 | an unregistered type gives ComponentNotRegistered and an unknown identifier EntityNotFound, with no state change and no event |
| EcsProperties.RemoveFromEntity | src/Manager.hpp:191-219 | on an existing entity: the flag is cleared and the other bits kept; no other entity, type's list, flag, counter or stored value changes and no list appears; if the entity is listed, the first entry with its identifier is erased (one entry fewer) and ComponentRemoved carries the stored value, otherwise list and log are unchanged |
| EcsProperties.RemoveAfterAdd | src/Manager.hpp:132-252 | remove right after add: the event carries the added value, the storage still holds it, and reads report the component absent unless its flag is 0 |
| EcsProperties.RemoveKeepsConsistent | src/Manager.hpp:191-219 | removing keeps identifiers equal to positions and every candidate entry a flagged snapshot |
| EcsProperties.RemoveKeepsValid | src/Manager.hpp:179-226 | removing keeps the whole invariant |
| Manager.ECS.GetComponent | src/Manager.hpp:228-252 | the result and the new state are GetStep's (reading a missing entry inserts the default value), no event, `Valid()` kept |
| Manager.ECS.HasComponent | src/Manager.hpp:328-332 | the result and the new state are HasStep's, no event, `Valid()` kept |
| EcsProperties.GetMeaning | src/Manager.hpp:228-332 | an unregistered type throws with no change; otherwise a value is found exactly when some entity with that identifier carries the flag, and it is the stored one when there is one; a read that finds nothing or a stored value changes nothing, and one that finds no stored value returns the default and inserts exactly that entry; HasComponent answers whether a value is found |
| EcsProperties.GetInsertsDefault | src/Manager.hpp:242-246 | for a type with flag 0 (registered after the 32nd), reading an existing entity with nothing stored returns the default value and stores it |
| EcsProperties.GetKeepsValid | src/Manager.hpp:245-246 | the default value a read inserts keeps the invariant |
| EcsProperties.EntityComparerKeys | src/Manager.hpp:18-24 | `EntityComparer` (identifier less-than) is irreflexive and transitive, and two entities are equivalent keys exactly when their identifiers agree |
| EcsModel.GetComponentNames | src/Manager.hpp:254-276 | the names are appended to the vector in call order |
| Manager.ECS.EntitiesWith | src/Manager.hpp:278-326 | the result and the new state (lists created by `operator[]`) are QueryStep's, no event, `Valid()` kept |
| Manager.ECS.ListSizes | src/Manager.hpp:296-306 | stops at the first unregistered name, touches the lists of the names before it, and records each list's length |
| Manager.ECS.Scan | src/Manager.hpp:308-325 | filters the first shortest requested list by the union of the requested flags |
| Manager.CombinedMask | src/Manager.hpp:308-312 | the union of the flags of the names |
| Manager.SmallestList | src/Manager.hpp:314 | the position of the first entry with the smallest length |
| Manager.Matching | src/Manager.hpp:317-323 | the entries of the list whose mask holds the field, in order |
| EcsModel.FirstMin | src/Manager.hpp:314 | a position holding the smallest value, strictly below every earlier entry |
| EcsModel.FirstMinUnique | src/Manager.hpp:314 | that position is unique |
| EcsModel.Select | src/Manager.hpp:317-323 | no longer than the list; an entry is kept exactly when it is in the list and its mask holds the field |
| EcsModel.SelectCounts | src/Manager.hpp:319-323 | a kept entry occurs in the result as many times as in the list, any other entry not at all |
| EcsModel.SelectAppend | src/Manager.hpp:319-323 | filtering a concatenation is the concatenation of the filtered parts, so the result keeps the list's order |
| EcsModel.FirstUnregistered | src/Manager.hpp:297-302 | the position of the first unregistered name, or the number of names |
| EcsModel.TouchCovers | src/Manager.hpp:304 | `Touch` (the `operator[]` of the loop) keeps every existing list and gives each requested name a list |
| EcsModel.TouchAddsOnlyNames | src/Manager.hpp:304 | the only new lists are empty ones for requested names |
| EcsModel.TouchNext | src/Manager.hpp:297-306 | one more loop iteration touches one more name |
| EcsProperties.QueryMaskHas | src/Manager.hpp:308-320 | a mask holds the union of the requested flags exactly when it holds each of them |
| EcsProperties.QueryNoTypes | src/Manager.hpp:285-294 | with no types: no change, one result per created entity, the i-th with identifier i |
| EcsProperties.QueryUnregistered | src/Manager.hpp:297-302 | any unregistered requested name makes the query throw ComponentNotRegistered for an unregistered requested name |
| EcsProperties.QueryResult | src/Manager.hpp:296-325 | with registered names: the scanned list is the first of the shortest requested lists, and the result is at most that long; an entry is in the result exactly when it is in that list and its mask holds every requested flag; each is an existing entity |
| EcsProperties.QueryResultCounts | src/Manager.hpp:296-325 | each entry of the scanned list that has every requested flag is returned as many times as the list holds it, and no other entry is returned |
| EcsProperties.QueryTwo | src/Manager.hpp:296-325 | asking for two listed types scans the strictly shorter list (the first type's on a tie) for entries with both flags, and changes nothing |
| EcsProperties.QueryKeepsValid | src/Manager.hpp:278-326 | the empty lists a query creates keep the invariant |
| EcsScenarios.QueryBothTypes | src/Manager.hpp:132-326 | add `a` then `b` to one entity and `a` to another: asking for `a` and `b` gives the first entity alone, with both flags |
| EcsScenarios.QueryMissesEntity | src/Manager.hpp:159-323 | add `a` then `b` to one entity: both reads succeed, yet asking for `a` and `b` gives nothing, because the tie picks `a`'s list, whose snapshot lacks `b` |
| EcsScenarios.AddOnceThenOther | src/Manager.hpp:149-166 | the two adds leave each list with one snapshot, `a`'s taken before `b` was added, and the entity with both flags |
| EcsScenarios.AddToListed | src/Manager.hpp:156-160 | adding to a listed type grows its list by one and leaves the other list alone |
| EcsScenarios.FoundByQuery | src/Manager.hpp:314-323 | the shorter list's single entry, holding both flags, is the whole result |
| EcsScenarios.MissedByQuery | src/Manager.hpp:314-323 | the tie scans `a`'s single stale entry and returns nothing |
| EcsScenarios.QueryReturnsTwice | src/Manager.hpp:132-326 | adding one type twice to an entity lists it twice, and asking for that type returns it twice |
| EcsScenarios.QueryOneListed | src/Manager.hpp:296-325 | a single requested list of two copies of a flagged entry is returned whole |
| EcsScenarios.BothReadable | src/Manager.hpp:228-332 | after the two adds, both HasComponent calls answer true |
| EcsModel.CreateStep | src/Manager.hpp:52-61 | adds exactly one entity and one EntityCreated, and leaves the flags, storage and lists as they were |
| EcsModel.RegisterStep | src/Manager.hpp:111-130 | leaves entities and lists alone and broadcasts nothing; the storage gains the name and keeps every other type's entries; only a fresh name can throw, and only FlagsExhausted |
| EcsModel.AddStep | src/Manager.hpp:132-177 | keeps the counters, the flag table, the registered names and the number of entities; succeeds exactly when the type is registered and the entity exists, and broadcasts one event exactly then |
| EcsModel.FindFirst | src/Manager.hpp:203-205 | the position of the first entry with the identifier, or the length when there is none |
| EcsModel.RemoveStep | src/Manager.hpp:179-226 | never touches storage, flags or counters nor the number of entities; succeeds exactly when the type is registered and the entity exists; broadcasts at most one event |
| EcsModel.GetStep | src/Manager.hpp:228-252 | throws exactly for an unregistered type, broadcasts nothing, and changes nothing but the storage entries (not the names) |
| EcsModel.HasStep | src/Manager.hpp:328-332 | answers true exactly when the type is registered, the entity exists and its mask holds the flag; throws exactly for an unregistered type |
| EcsModel.QueryStep | src/Manager.hpp:278-326 | changes nothing but the candidate lists, broadcasts nothing, and succeeds exactly when every requested name is registered |
| EcsModel.QueryMask | src/Manager.hpp:308-312 | holds the flag of every requested name (QueryMaskHas gives the converse) |
| Bitfield.DoubleValue | src/Manager.hpp:124 | `Double` is `2 * field` modulo 2^32, the unsigned 32-bit `*= 2` |
| Bitfield.DoubleValueMod | src/Manager.hpp:124 | below bit n + 1, doubling is `2 * field` modulo 2^(n+1) |
| Bitfield.Pow2Doubles | src/Manager.hpp:124 | doubling 2^n in 32 bits gives 2^(n+1), and 0 from 2^31 on |
| Bitfield.Pow2DropsOnlyAt31 | src/Manager.hpp:123-128 | the doubled word is smaller (`Below`, the unsigned `<`) exactly when n is 31 |
| Bitfield.Pow2Value | src/Manager.hpp:123-125 | the word 2^n has the value 2^n below 32, and 0 after |
| Bitfield.Pow2Disjoint | src/Manager.hpp:120-124 | the first 32 flags are non-zero single bits, pairwise disjoint |
| Bitfield.HasSet | src/Manager.hpp:311-320 | a word holds the union of two flags exactly when it holds both |

## Left out

- Event manager: `EventManager` and src/pubsub are not part of this model. A broadcast is an append to a ghost log of events; subscriber dispatch is not modelled.
- Type erasure: `typeid(...).name()`, `dynamic_cast`, `BaseContainer` and the leaked `new ComponentContainer<T>` are not modelled.
  - A component type is its name (a string), and all component values share one type `V`.
  - `GetComponentName` is the identity on names.
  - The default value `T()` that `operator[]` inserts is a per-type parameter `Blank`.
- Component arguments: `RegisterComponent`, `RemoveComponent`, `GetComponent` and `HasComponent` take a `T component` argument only to name its type; the model passes the type name and no value.
- Pointers: results are values, not pointers.
  - The model does not capture that `GetComponent` aliases the storage.
  - It does not capture that `EntitiesWith` returns dangling pointers into a loop local and a copied vector.
- Headers: bitfield.hpp, Entity.hpp and the exception headers are not part of this model.
  - `Set`, `Clear` and `Has` are assumed to be or, and-not, and "all bits of the flag present".
  - `Entity(id)` is assumed to start with mask 0.
  - The exceptions are three error values.
- Integer widths: `entityIndex` is an unbounded integer; its `int32_t` overflow is not modelled. Flags stay 32-bit words, so the conversion of the flag 2^31 to `int` is not modelled either.
- Manager.ECS.RemoveComponent: requires the candidate list to exist when the type is registered and the entity exists. The source dereferences it unchecked, which is undefined behaviour.
- Loop helpers: most loops of the source sit in their own helper method. These are the entity loop of `AddComponent` (MarkEntity) and of `RemoveComponent` (UnmarkEntity). For `EntitiesWith` they are the names loop (ListSizes), the mask loop (CombinedMask), `std::min_element` (SmallestList) and the filter loop (Matching). `Scan` is not a loop: it is the tail of `EntitiesWith` that picks the shortest list, copies it and filters it, and it calls SmallestList, CombinedMask and Matching. The entity loop of `GetComponent` and the copy loop for a query with no types stay inline in their methods. The loops stay the source's, only the split is new.
- EcsProperties.QueryResult: states which entries are in the result; their number is in QueryResultCounts and their order in SelectAppend (the result is `Select` of the scanned list, which `Matching` implements exactly).
- EntitiesWith with no types: the source pushes pointers to a loop-local copy; the model returns the entities themselves.
