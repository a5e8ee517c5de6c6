/**
 The order the class comment of `SimpleIOC` gives (fill the bean's fields,
 then register the bean) taken literally: a bean is registered once, after
 all of its properties are wired, so a bean without property elements is
 registered too and a bean cannot see itself while it is being wired.
 Everything else (document order, skipping non-elements, the silent stop on
 an unknown class, the error cases) is as in `Loader`, so the lemmas below
 isolate exactly where the two registration policies part.
 */
module FixedLoader {
  import opened Beans
  import opened Container
  import opened Loader

  /**
   The property loop without registration: every reference resolves against
   the registry as it was before this bean.
   */
  function WireFields(declared: set<string>, heap: seq<Obj>, registry: map<string, ObjId>, o: ObjId, props: seq<Property>): (r: Result<seq<Obj>>)
    requires o < |heap|
    ensures r.Ok? ==> |r.value| == |heap|
    ensures r.Ok? ==> forall x :: 0 <= x < |heap| && x != o ==> r.value[x] == heap[x]
    ensures r.Ok? ==> r.value[o].className == heap[o].className
    ensures r.Ok? ==> forall j :: 0 <= j < |props| ==> props[j].name in declared && (|props[j].value| > 0 || props[j].ref in registry)
    decreases |props|
  {
    if |props| == 0 then
      Ok(heap)
    else if props[0].name !in declared then
      Err(NoSuchField(heap[o].className, props[0].name))
    else
      var v :- ResolveValue(registry, props[0]);
      var r := WireFields(declared, SetField(heap, o, props[0].name, v), registry, o, props[1..]);
      assert r.Ok? ==> forall j :: 1 <= j < |props| ==> props[j] == props[1..][j - 1];
      r
  }

  /** `loadBeans` with registration moved after the property loop. */
  function LoadBeansFixed(types: TypeTable, st: State, nodes: seq<Node>): (r: Result<State>)
    ensures r.Ok? ==> |st.heap| <= |r.value.heap|
    ensures r.Ok? ==> st.registry.Keys <= r.value.registry.Keys
    decreases |nodes|
  {
    if |nodes| == 0 then Ok(st)
    else match nodes[0]
      case Other => LoadBeansFixed(types, st, nodes[1..])
      case Element(d) =>
        if d.className !in types then Ok(st)
        else if !types[d.className].instantiable then Err(InstantiationFailed(d.className))
        else
          var (heap1, o) := Instantiate(st.heap, d.className);
          var heap2 :- WireFields(types[d.className].declaredFields, heap1, st.registry, o, d.properties);
          LoadBeansFixed(types, State(heap2, RegisterBean(st.registry, d.id, o)), nodes[1..])
  }

  /** The fixed constructor: load into an empty container. */
  function LoadFixed(types: TypeTable, nodes: seq<Node>): Result<State> {
    LoadBeansFixed(types, Empty, nodes)
  }

  /** The ids the definitions `defs` carry. */
  ghost function Ids(defs: seq<BeanDef>): set<string> {
    set k | 0 <= k < |defs| :: defs[k].id
  }

  /** Under the fixed policy every processed definition is registered, with or without properties. */
  lemma {:induction false} FixedRegistersEveryBean(types: TypeTable, st: State, nodes: seq<Node>)
    requires LoadBeansFixed(types, st, nodes).Ok?
    ensures LoadBeansFixed(types, st, nodes).value.registry.Keys == st.registry.Keys + Ids(Processed(types, nodes))
    decreases |nodes|
  {
    if |nodes| == 0 {
      assert Processed(types, nodes) == [];
    } else if nodes[0].Other? {
      assert Processed(types, nodes) == Processed(types, nodes[1..]);
      FixedRegistersEveryBean(types, st, nodes[1..]);
    } else if nodes[0].def.className !in types {
      assert Processed(types, nodes) == [];
    } else {
      var d := nodes[0].def;
      var (heap1, o) := Instantiate(st.heap, d.className);
      var heap2 := WireFields(types[d.className].declaredFields, heap1, st.registry, o, d.properties).value;
      var st1 := State(heap2, RegisterBean(st.registry, d.id, o));
      FixedRegistersEveryBean(types, st1, nodes[1..]);
      IdsCons(d, Processed(types, nodes[1..]));
    }
  }

  lemma IdsCons(d: BeanDef, rest: seq<BeanDef>)
    ensures Ids([d] + rest) == {d.id} + Ids(rest)
  {
    var defs := [d] + rest;
    forall id | id in Ids(defs)
      ensures id in {d.id} + Ids(rest)
    {
      var k :| 0 <= k < |defs| && defs[k].id == id;
      if k > 0 {
        assert rest[k - 1] == defs[k];
      }
    }
    forall id | id in Ids(rest)
      ensures id in Ids(defs)
    {
      var k :| 0 <= k < |rest| && rest[k].id == id;
      assert defs[k + 1] == rest[k];
    }
    assert defs[0] == d;
  }

  /**
   Where the two policies part: a definition without property elements is
   dropped by the container as written and registered by the fixed one.
   */
  lemma ZeroPropertyBeanDiffers(types: TypeTable, st: State, d: BeanDef)
    requires d.className in types && types[d.className].instantiable
    requires |d.properties| == 0 && d.id !in st.registry
    ensures LoadBeans(types, st, [Element(d)]).Ok? && d.id !in LoadBeans(types, st, [Element(d)]).value.registry
    ensures LoadBeansFixed(types, st, [Element(d)]).Ok? && d.id in LoadBeansFixed(types, st, [Element(d)]).value.registry
  {
    assert [Element(d)][1..] == [];
  }

  /** The result of the fixed property loop, registered afterwards under `reg`. */
  function Registered(r: Result<seq<Obj>>, reg: map<string, ObjId>): Result<State> {
    match r
    case Ok(heap) => Ok(State(heap, reg))
    case Err(e) => Err(e)
  }

  /** No property of `d` resolves a reference to `d`'s own id. */
  predicate NoSelfReference(d: BeanDef) {
    forall j :: 0 <= j < |d.properties| && |d.properties[j].value| == 0 ==> d.properties[j].ref != d.id
  }

  /**
   Once the bean is registered, the remaining properties wire as under the
   fixed policy as long as none of them refers to the bean itself.
   */
  lemma {:induction false} WireAfterRegistration(declared: set<string>, heap: seq<Obj>, reg: map<string, ObjId>, id: string, o: ObjId, props: seq<Property>)
    requires o < |heap|
    requires forall j :: 0 <= j < |props| && |props[j].value| == 0 ==> props[j].ref != id
    ensures WireProperties(declared, State(heap, reg[id := o]), id, o, props) == Registered(WireFields(declared, heap, reg, o, props), reg[id := o])
    decreases |props|
  {
    if |props| > 0 && props[0].name in declared {
      var p := props[0];
      assert ResolveValue(reg[id := o], p) == ResolveValue(reg, p);
      if ResolveValue(reg, p).Ok? {
        var heap2 := SetField(heap, o, p.name, ResolveValue(reg, p).value);
        assert RegisterBean(reg[id := o], id, o) == reg[id := o];
        assert WireProperty(declared, State(heap, reg[id := o]), id, o, p) == Ok(State(heap2, reg[id := o]));
        forall j | 0 <= j < |props[1..]| && |props[1..][j].value| == 0
          ensures props[1..][j].ref != id
        {
          assert props[1..][j] == props[j + 1];
        }
        WireAfterRegistration(declared, heap2, reg, id, o, props[1..]);
      }
    }
  }

  /** For a bean with properties and no self-reference, both property loops agree. */
  lemma WireAgrees(declared: set<string>, heap: seq<Obj>, reg: map<string, ObjId>, d: BeanDef, o: ObjId)
    requires o < |heap|
    requires |d.properties| > 0 && NoSelfReference(d)
    ensures WireProperties(declared, State(heap, reg), d.id, o, d.properties)
         == Registered(WireFields(declared, heap, reg, o, d.properties), reg[d.id := o])
  {
    var props := d.properties;
    var p := props[0];
    if p.name in declared && ResolveValue(reg, p).Ok? {
      var heap2 := SetField(heap, o, p.name, ResolveValue(reg, p).value);
      forall j | 0 <= j < |props[1..]| && |props[1..][j].value| == 0
        ensures props[1..][j].ref != d.id
      {
        assert props[1..][j] == props[j + 1];
      }
      WireAfterRegistration(declared, heap2, reg, d.id, o, props[1..]);
    }
  }

  /**
   Where the two policies agree: if every processed definition has a property
   and none refers to itself, the container as written and the fixed one
   produce the same outcome.
   */
  lemma {:induction false} PoliciesAgree(types: TypeTable, st: State, nodes: seq<Node>)
    requires forall k :: 0 <= k < |Processed(types, nodes)| ==>
               |Processed(types, nodes)[k].properties| > 0 && NoSelfReference(Processed(types, nodes)[k])
    ensures LoadBeans(types, st, nodes) == LoadBeansFixed(types, st, nodes)
    decreases |nodes|
  {
    if |nodes| > 0 {
      match nodes[0]
      case Other =>
        assert Processed(types, nodes) == Processed(types, nodes[1..]);
        PoliciesAgree(types, st, nodes[1..]);
      case Element(d) =>
        if d.className in types && types[d.className].instantiable {
          var rest := Processed(types, nodes[1..]);
          assert Processed(types, nodes) == [d] + rest;
          assert Processed(types, nodes)[0] == d;
          forall k | 0 <= k < |rest|
            ensures |rest[k].properties| > 0 && NoSelfReference(rest[k])
          {
            assert rest[k] == Processed(types, nodes)[k + 1];
          }
          var (heap1, o) := Instantiate(st.heap, d.className);
          var declared := types[d.className].declaredFields;
          WireAgrees(declared, heap1, st.registry, d, o);
          var w := WireFields(declared, heap1, st.registry, o, d.properties);
          if w.Ok? {
            PoliciesAgree(types, State(w.value, st.registry[d.id := o]), nodes[1..]);
          }
        }
    }
  }
}
