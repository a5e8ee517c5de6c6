# SimpleIOC bean wiring, modelled in Dafny

This project models the bean-wiring engine of the `ioc-demo` container:
`SimpleIOC.loadBeans`, `getBean` and `registerBean`. The container reads a
document of `<bean>` elements (an `id`, a `class`, and nested `<property>`
elements carrying `name` and either `value` or `ref`). For each bean it
creates an instance and sets its fields one property at a time. It
registers the instance under its id in a map, `beanMap`.

Once the XML and reflection plumbing is abstracted away, the engine is a
deterministic state machine:

- **Input.** A sequence of root child nodes (`Beans.Node`). An element
  carries a `BeanDef`; every other node (text, comments) is skipped. A
  missing attribute reads as the empty string, as `getAttribute` returns.
- **Reflection.** A type table (`Beans.TypeTable`) maps a class name to
  its declared field names. It also records whether `newInstance`
  succeeds. A class missing from the table is what `Class.forName` fails
  to find.
- **State.** A heap of objects, where an object's identity is its
  allocation index. Each object maps field names to a literal string or a
  reference to another object. A registry maps bean ids to object
  identities (`Beans.State`).
- **Errors.** The exceptions that escape the constructor become
  `Beans.LoadError`: `NoSuchBean` (the IllegalArgumentException from
  `getBean`), `RefConfigError`, `NoSuchField` and `InstantiationFailed`.

Modules:

- `Beans` (beans.dfy): the data model and the no-dangling-identity
  invariant `Valid`.
- `Container` (container.dfy): `getBean`, `registerBean`, `newInstance`,
  and one pass of the property loop (`WireProperty`). It also holds the
  whole property loop of a bean (`WireProperties`).
- `Loader` (loader.dfy): the definition loop (`LoadBeans`), the
  constructor (`Load`), and an independent reference definition of the
  registry a load produces (`Registrations`), with the lemmas that connect
  the two.
- `FixedLoader` (fixed_loader.dfy): the alternative registration policy.
  A bean is registered once, after its property loop. The lemmas show
  where the two policies differ and where they agree.
- `Scenario` (scenario.dfy): the worked example of a `Wheel` and a `Car`
  that refers to it. It also covers the reversed (forward-reference)
  order, a bean without properties (an `Engine`), and an unknown class in the middle.

The model follows the code as written:

- Registration happens inside the per-property loop. So a bean with zero
  property elements is never registered. A bean can also refer to its own
  id from its second property on, and the reference resolves to its own
  fresh instance.
- An unknown class makes `loadBeans` return normally. It keeps the
  registry built so far and ignores every later definition.
- A non-empty `value` wins, and `ref` is then never read. A property with
  both set is not an error.
- The bean's declared field is resolved before `value` and `ref` are
  examined. An undeclared field therefore fails with `NoSuchField` even
  when both attributes are empty.

The class comment of `SimpleIOC` (lines 15-21) lists registering the bean
as the step after filling its fields. The code instead registers inside the
property loop, once per property. `FixedLoader` models the order the comment
gives, so the two registration policies can be compared.

## Model

| member | source | states |
|---|---|---|
| `Container.GetBean` | src/main/java/ioc/SimpleIOC.java:29-35 | lookup succeeds iff the id is registered, returns exactly that entry, and otherwise fails with the no-such-bean error naming the id |
| `Container.LookupAfterRegister` | src/main/java/ioc/SimpleIOC.java:29-35 | a lookup after registering `id` sees the new object under `id` and the old outcome for every other name |
| `Container.RegisterBean` | src/main/java/ioc/SimpleIOC.java:108-110 | registration adds `id` (or keeps it), maps it to the new object, and leaves every other entry unchanged |
| `Container.Instantiate` | src/main/java/ioc/SimpleIOC.java:75 | a new instance gets an identity distinct from every existing object, has the requested class and no field set, and earlier objects are untouched |
| `Container.SetField` | src/main/java/ioc/SimpleIOC.java:91-98 | assigning a field of one object sets that field to the value, keeps the object's class and its other fields, and leaves every other object unchanged |
| `Container.ResolveValue` | src/main/java/ioc/SimpleIOC.java:89-98 | the value assigned is the literal when it is non-empty; otherwise a missing ref is the ref-config error, and a ref resolves to the registered object or fails with no-such-bean |
| `Container.WireProperty` | src/main/java/ioc/SimpleIOC.java:83-101 | one property succeeds iff its field is declared and it has a literal or a registered ref; on success only that field of the bean changes and the bean is registered; each failure carries the error of the check that failed first |
| `Container.LiteralIgnoresRef` | src/main/java/ioc/SimpleIOC.java:89-91 | with a non-empty literal the outcome is the same whatever `ref` holds |
| `Container.WireProperties` | src/main/java/ioc/SimpleIOC.java:78-103 | a successful property loop touches only the bean's own object, keeps its class, implies every property named a declared field, registers the bean iff it has a property, and preserves `Valid` |
| `Container.WireSetsNamedFields` | src/main/java/ioc/SimpleIOC.java:79-99 | after the loop, the set fields are the old ones plus exactly the named ones, and unnamed fields keep their values |
| `Container.LastLiteralWins` | src/main/java/ioc/SimpleIOC.java:86-91 | the last property naming a field with a literal leaves exactly that literal in the field |
| `Container.LastReferenceWins` | src/main/java/ioc/SimpleIOC.java:92-98 | the last property naming a field with a reference leaves in the field the object registered under `ref` when it was resolved: before the loop for the first property, and with the bean itself registered for later ones |
| `Container.WireSucceeds` | src/main/java/ioc/SimpleIOC.java:78-103 | the converse of the loop's success conditions: properties that all name declared fields and whose refs are non-empty and registered before the bean, or name the bean itself after its first property, wire successfully |
| `Container.ReferencesResolvedBefore` | src/main/java/ioc/SimpleIOC.java:92-101 | every reference in a successful loop was non-empty and either registered before the bean or the bean's own id used after its first property |
| `Container.SelfReferenceAfterFirstProperty` | src/main/java/ioc/SimpleIOC.java:98-101 | a second property referring to the bean's own id resolves to the bean's own fresh instance |
| `Container.SelfReferenceFirstFails` | src/main/java/ioc/SimpleIOC.java:93-98 | a first property referring to the bean's own, not yet registered id fails with no-such-bean |
| `Loader.ElementsMembers` | src/main/java/ioc/SimpleIOC.java:60-63 | a definition is among the root's definitions iff an element node carries it |
| `Loader.ElementsAppend` | src/main/java/ioc/SimpleIOC.java:60-63 | definitions are collected in document order: those of a document's front, followed by those of its back |
| `Loader.Processed` | src/main/java/ioc/SimpleIOC.java:60-73 | the definitions loading reaches are the longest prefix, in document order, of the element definitions whose classes are all known |
| `Loader.LoadBeans` | src/main/java/ioc/SimpleIOC.java:60-105 | a successful load never modifies an object that existed before, never unregisters an id, and preserves `Valid` |
| `Loader.Load` | src/main/java/ioc/SimpleIOC.java:26-28 | the constructor loads into an empty container, and a successful result has no dangling identity |
| `Loader.LoadSkip` | src/main/java/ioc/SimpleIOC.java:60-63 | a non-element node changes neither the outcome nor the processed definitions |
| `Loader.LoadElement` | src/main/java/ioc/SimpleIOC.java:64-103 | a definition whose property loop succeeds hands that state to the rest of the document |
| `Loader.LoadStep` | src/main/java/ioc/SimpleIOC.java:64-103 | after a definition with a known class, loading continues with one more object of that class, and the bean is registered iff it has a property |
| `Loader.RegistrationsKeys` | src/main/java/ioc/SimpleIOC.java:101 | in the reference registry, an id is present iff it was present before or some definition with that id has a property |
| `Loader.RegistrationsLastWins` | src/main/java/ioc/SimpleIOC.java:108-110 | in the reference registry, an id maps to the object of the last definition with that id that has a property |
| `Loader.RegistrationsUntouched` | src/main/java/ioc/SimpleIOC.java:108-110 | an id that no definition with properties names keeps its entry, or stays absent |
| `Loader.LoadAllocatesInOrder` | src/main/java/ioc/SimpleIOC.java:60-75 | a successful load allocates exactly one fresh object per processed definition, in document order, of that definition's class |
| `Loader.LoadMatchesRegistrations` | src/main/java/ioc/SimpleIOC.java:79-103 | the registry after a successful load equals the reference definition `Registrations` over the processed definitions |
| `Loader.RegisteredIffHasProperty` | src/main/java/ioc/SimpleIOC.java:79-103 | after a successful load, an id is registered iff some processed definition with that id has at least one property |
| `Loader.ZeroPropertyBeanNotRegistered` | src/main/java/ioc/SimpleIOC.java:79-103 | a bean whose processed definitions all lack properties is not registered |
| `Loader.LastDefinitionWins` | src/main/java/ioc/SimpleIOC.java:108-110 | a later definition with the same id overwrites the entry: the id maps to the object of the last such definition with a property |
| `Loader.UnknownClassStops` | src/main/java/ioc/SimpleIOC.java:67-73 | an unknown class ends loading: the outcome is that of the definitions before it, and everything after it is ignored |
| `Loader.ReferencesPointBackward` | src/main/java/ioc/SimpleIOC.java:92-98 | every reference a successful load resolved names a bean registered before it or the bean itself after its first property |
| `Loader.ForwardReferenceFails` | src/main/java/ioc/SimpleIOC.java:92-98 | a reference to an id that no earlier processed definition registered makes loading fail |
| `Loader.LoadWireable` | src/main/java/ioc/SimpleIOC.java:64-103 | after a successful load, every processed definition had an instantiable class, properties naming declared fields, and a non-empty ref wherever the value was empty |
| `Loader.LoadSucceeds` | src/main/java/ioc/SimpleIOC.java:60-105 | when every processed definition is wireable and its references point backwards, loading succeeds |
| `Loader.LoadSucceedsIff` | src/main/java/ioc/SimpleIOC.java:26-105 | the constructor succeeds iff every definition it reaches is wireable and refers only to beans registered before it, or to itself after its first property |
| `FixedLoader.WireFields` | src/main/java/ioc/SimpleIOC.java:79-99 | the property loop without registration touches only the bean's object and keeps its class; success means every property named a declared field and had a literal or a ref registered before the bean |
| `FixedLoader.LoadBeansFixed` | src/main/java/ioc/SimpleIOC.java:60-105 | loading with registration after the loop also only grows the heap and the registry |
| `FixedLoader.FixedRegistersEveryBean` | src/main/java/ioc/SimpleIOC.java:101 | with registration after the loop, the registry keys are the old keys plus the ids of all processed definitions |
| `FixedLoader.ZeroPropertyBeanDiffers` | src/main/java/ioc/SimpleIOC.java:79-103 | a bean without property elements is dropped as written and registered by the fixed policy |
| `FixedLoader.WireAfterRegistration` | src/main/java/ioc/SimpleIOC.java:79-103 | once a bean is registered, its remaining properties wire as under the fixed policy if none refers to the bean itself |
| `FixedLoader.WireAgrees` | src/main/java/ioc/SimpleIOC.java:79-103 | for a bean with properties and no self-reference, both property loops yield the same objects and registry |
| `FixedLoader.PoliciesAgree` | src/main/java/ioc/SimpleIOC.java:60-105 | if every processed definition has a property and none refers to itself, both policies produce the same outcome |
| `Scenario.WireFrontWheel` | src/main/java/ioc/SimpleIOC.java:89-101 | wiring the wheel sets both literals and registers it |
| `Scenario.WireCar` | src/main/java/ioc/SimpleIOC.java:93-101 | wiring the car stores a reference to the wheel's object |
| `Scenario.LoadCarAfterWheel` | src/main/java/ioc/SimpleIOC.java:60-105 | after the wheel, loading the car and skipping text yields both beans |
| `Scenario.LoadDocument` | src/main/java/ioc/SimpleIOC.java:60-105 | the whole example document loads to the expected heap and registry |
| `Scenario.WheelThenCar` | src/main/java/ioc/SimpleIOC.java:60-105 | the car's `wheel` field is the very object registered as `frontWheel`, whose `brand` is the literal `Michelin` |
| `Scenario.CarThenWheel` | src/main/java/ioc/SimpleIOC.java:92-98 | declared in reverse order, the car's reference fails with no-such-bean |
| `Scenario.EngineIsDropped` | src/main/java/ioc/SimpleIOC.java:79-103 | a bean without properties is instantiated but cannot be looked up |
| `Scenario.UnknownClassInTheMiddle` | src/main/java/ioc/SimpleIOC.java:68-73 | an unknown class between two beans leaves the first registered and never loads the second |

## Left out

- Reading the file and parsing the XML (SimpleIOC.java lines 41-57). The input is modelled as the parsed sequence of root child nodes.
- `getElementsByTagName("property")` (line 78) also collects `<property>` elements nested at any depth. The model takes a bean's property list as already collected, in document order. Because that call only returns elements, the `instanceof Element` test on line 81 always holds, and the model has no non-element properties.
- Static fields and constructor effects. A type table's fields stand for instance fields. `getDeclaredField` (line 86) also finds static fields, and setting one (lines 91 and 98) changes a value shared by every instance. The no-argument constructor run by `newInstance` (line 75) may itself assign fields. Neither is modelled: a fresh instance has no field set by the container, and only the bean's own object changes. A constructor that throws is covered, because `instantiable` is then false.
- Loader.LoadBeans: promises that objects created before are untouched, which Java does not guarantee once a property names a static field (see the line above).
- Reflection. `Class.forName`, `getDeclaredField`, `newInstance` and `Field.set` are replaced by the type table and the heap. Access control (`setAccessible`) is not modelled.
- Type coercion in `Field.set`. Assigning a value of the wrong type (such as a string to a non-`String` field) throws in Java. Here every declared field accepts any value.
- Two `newInstance` exceptions, InstantiationException and IllegalAccessException, are one error, `InstantiationFailed`. Errors other than ClassNotFoundException from `Class.forName`, such as linkage errors, are not modelled.
- `e.printStackTrace()` (line 71) is only a side effect.
- When loading fails, the model returns only the error, not the state reached. The constructor throws, so no container is ever available to observe that state.
- The `Car` and `Engine` classes are not part of this model. The example assumes `Car` declares the single field `wheel` and `Engine` declares none.
- `Wheel.java` has no logic beyond getters, setters and `toString`. It appears only as a type-table entry.
