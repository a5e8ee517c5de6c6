/**
 The per-bean operations of SimpleIOC: looking a bean up (`getBean`),
 registering it (`registerBean`), creating a fresh instance (`newInstance`)
 and wiring its property elements one by one (the inner loop of `loadBeans`).
 */
module Container {
  import opened Beans

  /** `getBean`: the registry entry for `name`, or the IllegalArgumentException when there is none. */
  function GetBean(registry: map<string, ObjId>, name: string): (r: Result<ObjId>)
    ensures r.Ok? <==> name in registry
    ensures r.Ok? ==> r.value == registry[name]
    ensures r.Err? ==> r.error == NoSuchBean(name)
  {
    if name in registry then Ok(registry[name]) else Err(NoSuchBean(name))
  }

  /** `registerBean`: a plain map put. */
  function RegisterBean(registry: map<string, ObjId>, id: string, o: ObjId): (r: map<string, ObjId>)
    ensures r.Keys == registry.Keys + {id}
    ensures r[id] == o
    ensures forall k :: k in registry && k != id ==> r[k] == registry[k]
  {
    registry[id := o]
  }

  /** Lookup after registration sees the new entry under its id and nothing else changed. */
  lemma LookupAfterRegister(registry: map<string, ObjId>, id: string, o: ObjId, name: string)
    ensures GetBean(RegisterBean(registry, id, o), name) == (if name == id then Ok(o) else GetBean(registry, name))
  {
  }

  /** `newInstance`: a new object of the class with no field set, distinct from every existing one. */
  function Instantiate(heap: seq<Obj>, className: string): (r: (seq<Obj>, ObjId))
    ensures |heap| <= r.1 < |r.0| == |heap| + 1
    ensures r.0[..|heap|] == heap
    ensures r.0[r.1] == Obj(className, map[])
  {
    (heap + [Obj(className, map[])], |heap|)
  }

  /** `Field.set`: assign `v` to field `name` of object `o`, leaving every other object alone. */
  function SetField(heap: seq<Obj>, o: ObjId, name: string, v: Value): (r: seq<Obj>)
    requires o < |heap|
    ensures |r| == |heap|
    ensures r[o].className == heap[o].className
    ensures r[o].fields.Keys == heap[o].fields.Keys + {name}
    ensures r[o].fields[name] == v
    ensures forall f :: f in heap[o].fields && f != name ==> r[o].fields[f] == heap[o].fields[f]
    ensures forall x :: 0 <= x < |heap| && x != o ==> r[x] == heap[x]
  {
    heap[o := heap[o].(fields := heap[o].fields[name := v])]
  }

  /**
   The value a property assigns: its literal when that is non-empty, otherwise
   the bean its reference names, looked up in the registry as it is now.
   */
  function ResolveValue(registry: map<string, ObjId>, p: Property): (r: Result<Value>)
    ensures r.Ok? <==> |p.value| > 0 || (|p.ref| > 0 && p.ref in registry)
    ensures r.Ok? && |p.value| > 0 ==> r.value == Literal(p.value)
    ensures r.Ok? && |p.value| == 0 ==> r.value == Reference(registry[p.ref])
    ensures r.Err? && |p.ref| == 0 ==> r.error == RefConfigError
    ensures r.Err? && |p.ref| > 0 ==> r.error == NoSuchBean(p.ref)
  {
    if |p.value| > 0 then Ok(Literal(p.value))
    else if |p.ref| == 0 then Err(RefConfigError)
    else var t :- GetBean(registry, p.ref); Ok(Reference(t))
  }

  /** Wiring one property changed field `name` of `o` only, and registered `o` under `id`. */
  predicate WiredOnly(before: State, after: State, id: string, o: ObjId, name: string)
    requires o < |before.heap|
  {
    && |after.heap| == |before.heap|
    && (forall x :: 0 <= x < |before.heap| && x != o ==> after.heap[x] == before.heap[x])
    && after.heap[o].className == before.heap[o].className
    && after.heap[o].fields.Keys == before.heap[o].fields.Keys + {name}
    && (forall f :: f in before.heap[o].fields && f != name ==> after.heap[o].fields[f] == before.heap[o].fields[f])
    && after.registry == RegisterBean(before.registry, id, o)
  }

  /**
   One iteration of the property loop for bean `id` whose fresh instance is `o`
   and whose class declares `declared`: resolve the field, take the literal if
   it is non-empty, otherwise look the reference up, assign, then register.
   */
  function WireProperty(declared: set<string>, st: State, id: string, o: ObjId, p: Property): (r: Result<State>)
    requires o < |st.heap|
    ensures r.Ok? <==> p.name in declared && (|p.value| > 0 || (|p.ref| > 0 && p.ref in st.registry))
    ensures r.Ok? ==> WiredOnly(st, r.value, id, o, p.name)
    ensures r.Ok? && |p.value| > 0 ==> r.value.heap[o].fields[p.name] == Literal(p.value)
    ensures r.Ok? && |p.value| == 0 ==> r.value.heap[o].fields[p.name] == Reference(st.registry[p.ref])
    ensures p.name !in declared ==> r == Err(NoSuchField(st.heap[o].className, p.name))
    ensures p.name in declared && |p.value| == 0 && |p.ref| == 0 ==> r == Err(RefConfigError)
    ensures p.name in declared && |p.value| == 0 && |p.ref| > 0 && p.ref !in st.registry ==> r == Err(NoSuchBean(p.ref))
    ensures r.Ok? && Valid(st) ==> Valid(r.value)
  {
    if p.name !in declared then
      Err(NoSuchField(st.heap[o].className, p.name))
    else
      var v :- ResolveValue(st.registry, p);
      Ok(State(SetField(st.heap, o, p.name, v), RegisterBean(st.registry, id, o)))
  }

  /** A non-empty literal decides the outcome alone: the `ref` attribute is never read. */
  lemma LiteralIgnoresRef(declared: set<string>, st: State, id: string, o: ObjId, p: Property, otherRef: string)
    requires o < |st.heap|
    requires |p.value| > 0
    ensures WireProperty(declared, st, id, o, p) == WireProperty(declared, st, id, o, p.(ref := otherRef))
  {
  }

  /**
   The whole property loop of one bean. The bean is registered after each
   property, so it is registered iff it has at least one property.
   */
  function WireProperties(declared: set<string>, st: State, id: string, o: ObjId, props: seq<Property>): (r: Result<State>)
    requires o < |st.heap|
    ensures r.Ok? ==> |r.value.heap| == |st.heap|
    ensures r.Ok? ==> forall x :: 0 <= x < |st.heap| && x != o ==> r.value.heap[x] == st.heap[x]
    ensures r.Ok? ==> r.value.heap[o].className == st.heap[o].className
    ensures r.Ok? ==> forall j :: 0 <= j < |props| ==> props[j].name in declared
    ensures r.Ok? ==> r.value.registry == if |props| == 0 then st.registry else RegisterBean(st.registry, id, o)
    ensures r.Ok? && Valid(st) ==> Valid(r.value)
    decreases |props|
  {
    if |props| == 0 then
      Ok(st)
    else
      var st1 :- WireProperty(declared, st, id, o, props[0]);
      var r := WireProperties(declared, st1, id, o, props[1..]);
      assert r.Ok? ==> forall j :: 1 <= j < |props| ==> props[j] == props[1..][j - 1];
      r
  }

  /**
   Every reference a successful property loop resolved was already registered
   when the loop began, or is the bean's own id used after its first property.
   */
  lemma {:induction false} ReferencesResolvedBefore(declared: set<string>, st: State, id: string, o: ObjId, props: seq<Property>)
    requires o < |st.heap|
    requires WireProperties(declared, st, id, o, props).Ok?
    ensures forall j :: 0 <= j < |props| && |props[j].value| == 0 ==>
              |props[j].ref| > 0 && (props[j].ref in st.registry || (j > 0 && props[j].ref == id))
    decreases |props|
  {
    if |props| > 0 {
      var w := WireProperty(declared, st, id, o, props[0]);
      assert w.Ok?;
      var st1 := w.value;
      assert st1.registry == RegisterBean(st.registry, id, o);
      assert WireProperties(declared, st1, id, o, props[1..]).Ok?;
      ReferencesResolvedBefore(declared, st1, id, o, props[1..]);
      forall j | 0 <= j < |props| && |props[j].value| == 0
        ensures |props[j].ref| > 0 && (props[j].ref in st.registry || (j > 0 && props[j].ref == id))
      {
        if j > 0 {
          assert props[j] == props[1..][j - 1];
        }
      }
    }
  }

  /** The field names the properties `props` name. */
  function Names(props: seq<Property>): set<string> {
    set j | 0 <= j < |props| :: props[j].name
  }

  lemma NamesCons(props: seq<Property>)
    requires |props| > 0
    ensures Names(props) == {props[0].name} + Names(props[1..])
  {
    forall f | f in Names(props)
      ensures f in {props[0].name} + Names(props[1..])
    {
      var j :| 0 <= j < |props| && props[j].name == f;
      if j > 0 {
        assert props[1..][j - 1] == props[j];
      }
    }
    forall f | f in Names(props[1..])
      ensures f in Names(props)
    {
      var j :| 0 <= j < |props[1..]| && props[1..][j].name == f;
      assert props[j + 1] == props[1..][j];
    }
  }

  /**
   A successful property loop sets exactly the fields its properties name and
   leaves every other field of the instance as it was.
   */
  lemma {:induction false} WireSetsNamedFields(declared: set<string>, st: State, id: string, o: ObjId, props: seq<Property>)
    requires o < |st.heap|
    requires WireProperties(declared, st, id, o, props).Ok?
    ensures var after := WireProperties(declared, st, id, o, props).value.heap[o];
      && after.fields.Keys == st.heap[o].fields.Keys + Names(props)
      && forall f :: f in st.heap[o].fields && f !in Names(props) ==> after.fields[f] == st.heap[o].fields[f]
    decreases |props|
  {
    if |props| == 0 {
      assert Names(props) == {};
    } else {
      var st1 := WireProperty(declared, st, id, o, props[0]).value;
      WireSetsNamedFields(declared, st1, id, o, props[1..]);
      NamesCons(props);
    }
  }

  /** The last property naming a field with a non-empty literal leaves exactly that literal in the field. */
  lemma {:induction false} LastLiteralWins(declared: set<string>, st: State, id: string, o: ObjId, props: seq<Property>, j: nat)
    requires o < |st.heap|
    requires WireProperties(declared, st, id, o, props).Ok?
    requires j < |props| && |props[j].value| > 0
    requires forall k :: j < k < |props| ==> props[k].name != props[j].name
    ensures var after := WireProperties(declared, st, id, o, props).value.heap[o];
      props[j].name in after.fields && after.fields[props[j].name] == Literal(props[j].value)
    decreases |props|
  {
    var w := WireProperty(declared, st, id, o, props[0]);
    assert w.Ok?;
    var st1 := w.value;
    assert WireProperties(declared, st1, id, o, props[1..]) == WireProperties(declared, st, id, o, props);
    if j == 0 {
      WireSetsNamedFields(declared, st1, id, o, props[1..]);
      forall k | 0 <= k < |props[1..]|
        ensures props[1..][k].name != props[0].name
      {
        assert props[1..][k] == props[k + 1];
      }
      assert props[0].name !in Names(props[1..]);
    } else {
      forall k | j - 1 < k < |props[1..]|
        ensures props[1..][k].name != props[1..][j - 1].name
      {
        assert props[1..][k] == props[k + 1];
      }
      LastLiteralWins(declared, st1, id, o, props[1..], j - 1);
    }
  }

  /**
   The last property naming a field with a reference leaves that reference in
   the field: the object registered under `ref` when it was resolved, that is
   before the loop for the first property and with the bean itself registered
   for every later one.
   */
  lemma {:induction false} LastReferenceWins(declared: set<string>, st: State, id: string, o: ObjId, props: seq<Property>, j: nat)
    requires o < |st.heap|
    requires WireProperties(declared, st, id, o, props).Ok?
    requires j < |props| && |props[j].value| == 0
    requires forall k :: j < k < |props| ==> props[k].name != props[j].name
    ensures var reg := if j == 0 then st.registry else RegisterBean(st.registry, id, o);
      var after := WireProperties(declared, st, id, o, props).value.heap[o];
      props[j].ref in reg && props[j].name in after.fields && after.fields[props[j].name] == Reference(reg[props[j].ref])
    decreases |props|
  {
    var w := WireProperty(declared, st, id, o, props[0]);
    assert w.Ok?;
    var st1 := w.value;
    assert WireProperties(declared, st1, id, o, props[1..]) == WireProperties(declared, st, id, o, props);
    if j == 0 {
      WireSetsNamedFields(declared, st1, id, o, props[1..]);
      forall k | 0 <= k < |props[1..]|
        ensures props[1..][k].name != props[0].name
      {
        assert props[1..][k] == props[k + 1];
      }
      assert props[0].name !in Names(props[1..]);
    } else {
      forall k | j - 1 < k < |props[1..]|
        ensures props[1..][k].name != props[1..][j - 1].name
      {
        assert props[1..][k] == props[k + 1];
      }
      LastReferenceWins(declared, st1, id, o, props[1..], j - 1);
      assert RegisterBean(st1.registry, id, o) == st1.registry;
    }
  }

  /**
   The converse of the loop's success conditions: properties that all name
   declared fields, and whose references are non-empty and registered before
   the bean (or name the bean itself after its first property), wire
   successfully.
   */
  lemma {:induction false} WireSucceeds(declared: set<string>, st: State, id: string, o: ObjId, props: seq<Property>)
    requires o < |st.heap|
    requires forall j :: 0 <= j < |props| ==> props[j].name in declared
    requires forall j :: 0 <= j < |props| && |props[j].value| == 0 ==>
               |props[j].ref| > 0 && (props[j].ref in st.registry || (j > 0 && props[j].ref == id))
    ensures WireProperties(declared, st, id, o, props).Ok?
    decreases |props|
  {
    if |props| > 0 {
      var w := WireProperty(declared, st, id, o, props[0]);
      assert w.Ok?;
      var st1 := w.value;
      assert id in st1.registry && st.registry.Keys <= st1.registry.Keys;
      forall j | 0 <= j < |props[1..]|
        ensures props[1..][j].name in declared
        ensures |props[1..][j].value| == 0 ==> |props[1..][j].ref| > 0 && props[1..][j].ref in st1.registry
      {
        assert props[1..][j] == props[j + 1];
      }
      WireSucceeds(declared, st1, id, o, props[1..]);
      assert WireProperties(declared, st1, id, o, props[1..]) == WireProperties(declared, st, id, o, props);
    }
  }

  /**
   A bean can refer to itself once its first property is wired: the reference
   resolves to the bean's own fresh instance.
   */
  lemma {:induction false} SelfReferenceAfterFirstProperty(declared: set<string>, st: State, id: string, o: ObjId, first: Property, self: Property)
    requires o < |st.heap|
    requires first.name in declared && |first.value| > 0
    requires self.name in declared && |self.value| == 0 && self.ref == id && |id| > 0
    ensures var r := WireProperties(declared, st, id, o, [first, self]);
              r.Ok? && self.name in r.value.heap[o].fields && r.value.heap[o].fields[self.name] == Reference(o)
  {
    var st1 := WireProperty(declared, st, id, o, first).value;
    assert [first, self][1..] == [self];
    assert WireProperties(declared, st1, id, o, [self]) == WireProperty(declared, st1, id, o, self);
  }

  /** The same self-reference as the first property fails unless the id was registered before. */
  lemma SelfReferenceFirstFails(declared: set<string>, st: State, id: string, o: ObjId, self: Property, rest: seq<Property>)
    requires o < |st.heap|
    requires self.name in declared && |self.value| == 0 && self.ref == id && |id| > 0
    requires id !in st.registry
    ensures WireProperties(declared, st, id, o, [self] + rest) == Err(NoSuchBean(id))
  {
  }
}
