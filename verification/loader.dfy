/**
 The definition loop of `loadBeans`: walk the root's child nodes in document
 order, skip non-elements, resolve each bean's class, create a fresh instance
 and run its property loop. An unknown class ends loading normally with the
 registry built so far; every other failure escapes as an error.
 */
module Loader {
  import opened Beans
  import opened Container

  /** The bean definitions among the root's child nodes, in document order. */
  function Elements(nodes: seq<Node>): (r: seq<BeanDef>)
    ensures |r| <= |nodes|
    decreases |nodes|
  {
    if |nodes| == 0 then []
    else match nodes[0]
      case Other => Elements(nodes[1..])
      case Element(d) => [d] + Elements(nodes[1..])
  }

  /** Exactly the element nodes contribute a definition. */
  lemma {:induction false} ElementsMembers(nodes: seq<Node>, d: BeanDef)
    ensures d in Elements(nodes) <==> Element(d) in nodes
    decreases |nodes|
  {
    if |nodes| > 0 {
      ElementsMembers(nodes[1..], d);
      assert nodes == [nodes[0]] + nodes[1..];
    }
  }

  /** Definitions are collected in document order: those of a document's front, then those of its back. */
  lemma {:induction false} ElementsAppend(front: seq<Node>, back: seq<Node>)
    ensures Elements(front + back) == Elements(front) + Elements(back)
    decreases |front|
  {
    if |front| > 0 {
      assert (front + back)[0] == front[0];
      assert (front + back)[1..] == front[1..] + back;
      ElementsAppend(front[1..], back);
    } else {
      assert front + back == back;
    }
  }

  /**
   The definitions loading actually reaches: the longest prefix of the
   definitions whose classes are all known.
   */
  function Processed(types: TypeTable, nodes: seq<Node>): (r: seq<BeanDef>)
    ensures |r| <= |Elements(nodes)| && r == Elements(nodes)[..|r|]
    ensures forall k :: 0 <= k < |r| ==> r[k].className in types
    ensures |r| < |Elements(nodes)| ==> Elements(nodes)[|r|].className !in types
    decreases |nodes|
  {
    if |nodes| == 0 then []
    else match nodes[0]
      case Other => Processed(types, nodes[1..])
      case Element(d) => if d.className !in types then [] else [d] + Processed(types, nodes[1..])
  }

  /** The heap before a definition is loaded, plus its fresh instance, satisfies the invariant again. */
  lemma InstantiateKeepsValid(st: State, className: string)
    requires Valid(st)
    ensures var (heap1, o) := Instantiate(st.heap, className); Valid(State(heap1, st.registry))
  {
    var (heap1, o) := Instantiate(st.heap, className);
    forall x | 0 <= x < |heap1|
      ensures ObjWithin(heap1[x], |heap1|)
    {
      if x < |st.heap| {
        assert heap1[x] == st.heap[x];
      }
    }
  }

  /**
   `loadBeans` from state `st` over the remaining root child nodes. Objects
   that existed before are never touched again and registered ids stay
   registered.
   */
  function LoadBeans(types: TypeTable, st: State, nodes: seq<Node>): (r: Result<State>)
    ensures r.Ok? ==> |st.heap| <= |r.value.heap|
    ensures r.Ok? ==> forall x :: 0 <= x < |st.heap| ==> r.value.heap[x] == st.heap[x]
    ensures r.Ok? ==> st.registry.Keys <= r.value.registry.Keys
    ensures r.Ok? && Valid(st) ==> Valid(r.value)
    decreases |nodes|
  {
    if |nodes| == 0 then Ok(st)
    else match nodes[0]
      case Other => LoadBeans(types, st, nodes[1..])
      case Element(d) =>
        if d.className !in types then Ok(st)
        else if !types[d.className].instantiable then Err(InstantiationFailed(d.className))
        else
          var (heap1, o) := Instantiate(st.heap, d.className);
          var st1 :- WireProperties(types[d.className].declaredFields, State(heap1, st.registry), d.id, o, d.properties);
          assert Valid(st) ==> Valid(st1) by {
            if Valid(st) {
              InstantiateKeepsValid(st, d.className);
            }
          }
          LoadBeans(types, st1, nodes[1..])
  }

  /** The `SimpleIOC` constructor: load into an empty container. */
  function Load(types: TypeTable, nodes: seq<Node>): (r: Result<State>)
    ensures r.Ok? ==> Valid(r.value)
  {
    LoadBeans(types, Empty, nodes)
  }

  /**
   Reference definition of the registry after the definitions `defs`, when
   object identities are handed out from `next` on: each definition with at
   least one property puts its own fresh object under its id.
   */
  function Registrations(reg: map<string, ObjId>, next: ObjId, defs: seq<BeanDef>): map<string, ObjId>
    decreases |defs|
  {
    if |defs| == 0 then reg
    else Registrations(if |defs[0].properties| > 0 then reg[defs[0].id := next] else reg, next + 1, defs[1..])
  }

  /** An id ends up registered iff it was registered before or a definition with that id has a property. */
  lemma {:induction false} RegistrationsKeys(reg: map<string, ObjId>, next: ObjId, defs: seq<BeanDef>, id: string)
    ensures id in Registrations(reg, next, defs) <==>
              id in reg || exists k :: 0 <= k < |defs| && defs[k].id == id && |defs[k].properties| > 0
    decreases |defs|
  {
    if |defs| > 0 {
      var reg1 := if |defs[0].properties| > 0 then reg[defs[0].id := next] else reg;
      RegistrationsKeys(reg1, next + 1, defs[1..], id);
      if exists k :: 0 <= k < |defs[1..]| && defs[1..][k].id == id && |defs[1..][k].properties| > 0 {
        var k :| 0 <= k < |defs[1..]| && defs[1..][k].id == id && |defs[1..][k].properties| > 0;
        assert defs[k + 1] == defs[1..][k];
      }
      if exists k :: 0 <= k < |defs| && defs[k].id == id && |defs[k].properties| > 0 {
        var k :| 0 <= k < |defs| && defs[k].id == id && |defs[k].properties| > 0;
        if k > 0 {
          assert defs[1..][k - 1] == defs[k];
        }
      }
    }
  }

  /** The last definition with properties under an id owns the entry: the object allocated for it. */
  lemma {:induction false} RegistrationsLastWins(reg: map<string, ObjId>, next: ObjId, defs: seq<BeanDef>, k: nat)
    requires k < |defs| && |defs[k].properties| > 0
    requires forall j :: k < j < |defs| && defs[j].id == defs[k].id ==> |defs[j].properties| == 0
    ensures defs[k].id in Registrations(reg, next, defs)
    ensures Registrations(reg, next, defs)[defs[k].id] == next + k
    decreases |defs|
  {
    var reg1 := if |defs[0].properties| > 0 then reg[defs[0].id := next] else reg;
    if k == 0 {
      RegistrationsUntouched(reg1, next + 1, defs[1..], defs[0].id);
    } else {
      RegistrationsLastWins(reg1, next + 1, defs[1..], k - 1);
    }
  }

  /** An id that no definition with properties names keeps its entry, or stays absent. */
  lemma {:induction false} RegistrationsUntouched(reg: map<string, ObjId>, next: ObjId, defs: seq<BeanDef>, id: string)
    requires forall j :: 0 <= j < |defs| && defs[j].id == id ==> |defs[j].properties| == 0
    ensures id in Registrations(reg, next, defs) <==> id in reg
    ensures id in reg ==> Registrations(reg, next, defs)[id] == reg[id]
    decreases |defs|
  {
    if |defs| > 0 {
      var reg1 := if |defs[0].properties| > 0 then reg[defs[0].id := next] else reg;
      RegistrationsUntouched(reg1, next + 1, defs[1..], id);
    }
  }

  /**
   The objects from `base` on are exactly one per definition of `defs`, in
   order, each of its definition's class.
   */
  ghost predicate AllocatedInOrder(heap: seq<Obj>, base: nat, defs: seq<BeanDef>) {
    && |heap| == base + |defs|
    && forall k :: 0 <= k < |defs| ==> heap[base + k].className == defs[k].className
  }

  /**
   A successful load allocates one fresh object per processed definition, in
   document order, each of the class its definition names.
   */
  lemma {:induction false} LoadAllocatesInOrder(types: TypeTable, st: State, nodes: seq<Node>)
    requires LoadBeans(types, st, nodes).Ok?
    ensures AllocatedInOrder(LoadBeans(types, st, nodes).value.heap, |st.heap|, Processed(types, nodes))
    decreases |nodes|
  {
    if |nodes| == 0 {
      assert Processed(types, nodes) == [];
    } else if nodes[0].Other? {
      LoadSkip(types, st, nodes);
      LoadAllocatesInOrder(types, st, nodes[1..]);
    } else if nodes[0].def.className !in types {
      assert Processed(types, nodes) == [];
    } else {
      var st1 := LoadStep(types, st, nodes[0].def, nodes);
      LoadAllocatesInOrder(types, st1, nodes[1..]);
      var heap' := LoadBeans(types, st1, nodes[1..]).value.heap;
      AllocatedShift(heap', |st.heap|, |st1.heap|, Processed(types, nodes), Processed(types, nodes[1..]));
    }
  }

  /** The first allocated object followed by the allocations of the remaining definitions. */
  lemma AllocatedShift(heap: seq<Obj>, base: nat, next: nat, defs: seq<BeanDef>, rest: seq<BeanDef>)
    requires next == base + 1 && |defs| > 0 && defs[1..] == rest
    requires base < |heap| && heap[base].className == defs[0].className
    requires AllocatedInOrder(heap, next, rest)
    ensures AllocatedInOrder(heap, base, defs)
  {
    forall k | 0 <= k < |defs|
      ensures heap[base + k].className == defs[k].className
    {
      if k > 0 {
        assert defs[k] == rest[k - 1];
        assert heap[next + (k - 1)].className == rest[k - 1].className;
      }
    }
  }

  /**
   A successful load agrees with the reference definition of the registry:
   each processed definition with a property registers its fresh object.
   */
  lemma {:induction false} LoadMatchesRegistrations(types: TypeTable, st: State, nodes: seq<Node>)
    requires LoadBeans(types, st, nodes).Ok?
    ensures LoadBeans(types, st, nodes).value.registry == Registrations(st.registry, |st.heap|, Processed(types, nodes))
    decreases |nodes|
  {
    if |nodes| == 0 {
      assert Processed(types, nodes) == [];
    } else if nodes[0].Other? {
      LoadSkip(types, st, nodes);
      LoadMatchesRegistrations(types, st, nodes[1..]);
    } else if nodes[0].def.className !in types {
      assert Processed(types, nodes) == [];
    } else {
      var st1 := LoadStep(types, st, nodes[0].def, nodes);
      LoadMatchesRegistrations(types, st1, nodes[1..]);
      var defs := Processed(types, nodes);
      assert defs[1..] == Processed(types, nodes[1..]);
    }
  }

  /**
   One definition whose class is known: loading continues from the state
   after its fresh instance is created and its property loop succeeds.
   */
  lemma {:induction false} LoadStep(types: TypeTable, st: State, d: BeanDef, nodes: seq<Node>) returns (st1: State)
    requires |nodes| > 0 && nodes[0] == Element(d) && d.className in types
    requires LoadBeans(types, st, nodes).Ok?
    ensures LoadBeans(types, st, nodes) == LoadBeans(types, st1, nodes[1..])
    ensures Processed(types, nodes) == [d] + Processed(types, nodes[1..])
    ensures |st1.heap| == |st.heap| + 1 && st1.heap[|st.heap|].className == d.className
    ensures st1.registry == if |d.properties| > 0 then st.registry[d.id := |st.heap|] else st.registry
    ensures forall j :: 0 <= j < |d.properties| && |d.properties[j].value| == 0 ==>
              d.properties[j].ref in st.registry || (j > 0 && d.properties[j].ref == d.id)
    ensures WireableDef(types, d)
  {
    var (heap1, o) := Instantiate(st.heap, d.className);
    var declared := types[d.className].declaredFields;
    st1 := WireProperties(declared, State(heap1, st.registry), d.id, o, d.properties).value;
    ReferencesResolvedBefore(declared, State(heap1, st.registry), d.id, o, d.properties);
  }

  /** A definition whose instance wires successfully hands the resulting state to the rest of the document. */
  lemma LoadElement(types: TypeTable, st: State, d: BeanDef, rest: seq<Node>, st1: State)
    requires d.className in types && types[d.className].instantiable
    requires WireProperties(types[d.className].declaredFields, State(st.heap + [Obj(d.className, map[])], st.registry),
                            d.id, |st.heap|, d.properties) == Ok(st1)
    ensures LoadBeans(types, st, [Element(d)] + rest) == LoadBeans(types, st1, rest)
  {
    assert ([Element(d)] + rest)[1..] == rest;
  }

  /** A non-element node is skipped. */
  lemma LoadSkip(types: TypeTable, st: State, nodes: seq<Node>)
    requires |nodes| > 0 && nodes[0] == Other
    ensures LoadBeans(types, st, nodes) == LoadBeans(types, st, nodes[1..])
    ensures Processed(types, nodes) == Processed(types, nodes[1..])
  {
  }

  /**
   After a successful load, an id is registered iff some processed definition
   with that id has at least one property.
   */
  lemma RegisteredIffHasProperty(types: TypeTable, nodes: seq<Node>, id: string)
    requires Load(types, nodes).Ok?
    ensures id in Load(types, nodes).value.registry <==>
              exists k :: 0 <= k < |Processed(types, nodes)| && Processed(types, nodes)[k].id == id
                          && |Processed(types, nodes)[k].properties| > 0
  {
    LoadMatchesRegistrations(types, Empty, nodes);
    RegistrationsKeys(map[], 0, Processed(types, nodes), id);
  }

  /** A bean whose only definitions have no property element is never registered. */
  lemma ZeroPropertyBeanNotRegistered(types: TypeTable, nodes: seq<Node>, d: BeanDef)
    requires Load(types, nodes).Ok?
    requires d in Processed(types, nodes)
    requires forall k :: 0 <= k < |Processed(types, nodes)| && Processed(types, nodes)[k].id == d.id ==>
               |Processed(types, nodes)[k].properties| == 0
    ensures d.id !in Load(types, nodes).value.registry
  {
    RegisteredIffHasProperty(types, nodes, d.id);
  }

  /**
   A later definition with the same id overwrites an earlier one: the entry is
   the fresh object of the last processed definition with properties.
   */
  lemma LastDefinitionWins(types: TypeTable, nodes: seq<Node>, k: nat)
    requires Load(types, nodes).Ok?
    requires k < |Processed(types, nodes)| && |Processed(types, nodes)[k].properties| > 0
    requires forall j :: k < j < |Processed(types, nodes)| && Processed(types, nodes)[j].id == Processed(types, nodes)[k].id ==>
               |Processed(types, nodes)[j].properties| == 0
    ensures var st' := Load(types, nodes).value;
      && Processed(types, nodes)[k].id in st'.registry
      && st'.registry[Processed(types, nodes)[k].id] == k
      && k < |st'.heap| && st'.heap[k].className == Processed(types, nodes)[k].className
  {
    LoadAllocatesInOrder(types, Empty, nodes);
    LoadMatchesRegistrations(types, Empty, nodes);
    RegistrationsLastWins(map[], 0, Processed(types, nodes), k);
  }

  /**
   An unknown class ends loading there: whatever follows it is ignored and the
   outcome is that of the definitions before it.
   */
  lemma {:induction false} UnknownClassStops(types: TypeTable, st: State, before: seq<Node>, d: BeanDef, after: seq<Node>)
    requires d.className !in types
    ensures LoadBeans(types, st, before + [Element(d)] + after) == LoadBeans(types, st, before)
    decreases |before|
  {
    var nodes := before + [Element(d)] + after;
    if |before| == 0 {
      assert nodes[0] == Element(d);
    } else {
      assert nodes[0] == before[0];
      assert nodes[1..] == before[1..] + [Element(d)] + after;
      match before[0]
      case Other =>
        UnknownClassStops(types, st, before[1..], d, after);
      case Element(d0) =>
        if d0.className in types && types[d0.className].instantiable {
          var (heap1, o) := Instantiate(st.heap, d0.className);
          var w := WireProperties(types[d0.className].declaredFields, State(heap1, st.registry), d0.id, o, d0.properties);
          if w.Ok? {
            UnknownClassStops(types, w.value, before[1..], d, after);
          }
        }
    }
  }

  /**
   Every reference among `defs` that has to be resolved names an id that is
   registered by the time it is resolved: in `reg`, by an earlier definition,
   or by the definition itself after its first property.
   */
  ghost predicate ReferencesBackward(reg: map<string, ObjId>, next: ObjId, defs: seq<BeanDef>) {
    forall k, j :: 0 <= k < |defs| && 0 <= j < |defs[k].properties| && |defs[k].properties[j].value| == 0 ==>
      || defs[k].properties[j].ref in Registrations(reg, next, defs[..k])
      || (j > 0 && defs[k].properties[j].ref == defs[k].id)
  }

  /**
   References point backwards: every reference a successful load resolved names
   a bean registered by an earlier processed definition (or before loading
   began), or the bean's own id after its first property.
   */
  lemma {:induction false} ReferencesPointBackward(types: TypeTable, st: State, nodes: seq<Node>)
    requires LoadBeans(types, st, nodes).Ok?
    ensures ReferencesBackward(st.registry, |st.heap|, Processed(types, nodes))
    decreases |nodes|
  {
    if |nodes| == 0 {
      assert Processed(types, nodes) == [];
    } else if nodes[0].Other? {
      LoadSkip(types, st, nodes);
      ReferencesPointBackward(types, st, nodes[1..]);
    } else if nodes[0].def.className !in types {
      assert Processed(types, nodes) == [];
    } else {
      var d := nodes[0].def;
      var st1 := LoadStep(types, st, d, nodes);
      ReferencesPointBackward(types, st1, nodes[1..]);
      ReferencesShift(st.registry, |st.heap|, st1.registry, |st1.heap|, d, Processed(types, nodes[1..]));
    }
  }

  /** The first definition's references followed by those of the remaining definitions. */
  lemma ReferencesShift(reg: map<string, ObjId>, next: ObjId, reg1: map<string, ObjId>, next1: ObjId, d: BeanDef, rest: seq<BeanDef>)
    requires next1 == next + 1
    requires reg1 == if |d.properties| > 0 then reg[d.id := next] else reg
    requires forall j :: 0 <= j < |d.properties| && |d.properties[j].value| == 0 ==>
               d.properties[j].ref in reg || (j > 0 && d.properties[j].ref == d.id)
    requires ReferencesBackward(reg1, next1, rest)
    ensures ReferencesBackward(reg, next, [d] + rest)
  {
    var defs := [d] + rest;
    forall k, j | 0 <= k < |defs| && 0 <= j < |defs[k].properties| && |defs[k].properties[j].value| == 0
      ensures || defs[k].properties[j].ref in Registrations(reg, next, defs[..k])
              || (j > 0 && defs[k].properties[j].ref == defs[k].id)
    {
      if k == 0 {
        assert defs[..k] == [];
      } else {
        assert defs[k] == rest[k - 1];
        assert defs[..k][1..] == rest[..k - 1];
      }
    }
  }

  /**
   A reference to a bean that no earlier processed definition registered (a
   forward reference) makes loading fail.
   */
  lemma ForwardReferenceFails(types: TypeTable, nodes: seq<Node>, k: nat, j: nat)
    requires k < |Processed(types, nodes)|
    requires j < |Processed(types, nodes)[k].properties|
    requires |Processed(types, nodes)[k].properties[j].value| == 0
    requires forall i :: 0 <= i < k && Processed(types, nodes)[i].id == Processed(types, nodes)[k].properties[j].ref ==>
               |Processed(types, nodes)[i].properties| == 0
    requires j == 0 || Processed(types, nodes)[k].properties[j].ref != Processed(types, nodes)[k].id
    ensures Load(types, nodes).Err?
  {
    var defs := Processed(types, nodes);
    var r := defs[k].properties[j].ref;
    if Load(types, nodes).Ok? {
      ReferencesPointBackward(types, Empty, nodes);
      RegistrationsKeys(map[], 0, defs[..k], r);
      assert false;
    }
  }

  /**
   A definition the loop can wire without a type error: its class is found
   and instantiable, every property names a field the class declares, and
   every property without a literal has a non-empty `ref`.
   */
  predicate WireableDef(types: TypeTable, d: BeanDef) {
    && d.className in types && types[d.className].instantiable
    && forall j :: 0 <= j < |d.properties| ==>
         && d.properties[j].name in types[d.className].declaredFields
         && (|d.properties[j].value| == 0 ==> |d.properties[j].ref| > 0)
  }

  predicate Wireable(types: TypeTable, defs: seq<BeanDef>) {
    forall k :: 0 <= k < |defs| ==> WireableDef(types, defs[k])
  }

  /** Every processed definition of a successful load was wireable. */
  lemma {:induction false} LoadWireable(types: TypeTable, st: State, nodes: seq<Node>)
    requires LoadBeans(types, st, nodes).Ok?
    ensures Wireable(types, Processed(types, nodes))
    decreases |nodes|
  {
    if |nodes| == 0 {
      assert Processed(types, nodes) == [];
    } else if nodes[0].Other? {
      LoadSkip(types, st, nodes);
      LoadWireable(types, st, nodes[1..]);
    } else if nodes[0].def.className !in types {
      assert Processed(types, nodes) == [];
    } else {
      var st1 := LoadStep(types, st, nodes[0].def, nodes);
      LoadWireable(types, st1, nodes[1..]);
      WireableCons(types, nodes[0].def, Processed(types, nodes[1..]));
    }
  }

  /** A definition list is wireable iff its first definition and the rest are. */
  lemma WireableCons(types: TypeTable, d: BeanDef, rest: seq<BeanDef>)
    ensures Wireable(types, [d] + rest) <==> WireableDef(types, d) && Wireable(types, rest)
  {
    assert ([d] + rest)[0] == d;
    assert forall k :: 0 <= k < |rest| ==> rest[k] == ([d] + rest)[k + 1];
  }

  /** The converse of `ReferencesShift`: the first definition's references, and those of the rest. */
  lemma ReferencesUnshift(reg: map<string, ObjId>, next: ObjId, d: BeanDef, rest: seq<BeanDef>)
    requires ReferencesBackward(reg, next, [d] + rest)
    ensures forall j :: 0 <= j < |d.properties| && |d.properties[j].value| == 0 ==>
              d.properties[j].ref in reg || (j > 0 && d.properties[j].ref == d.id)
    ensures ReferencesBackward(if |d.properties| > 0 then reg[d.id := next] else reg, next + 1, rest)
  {
    var defs := [d] + rest;
    var reg1 := if |d.properties| > 0 then reg[d.id := next] else reg;
    forall j | 0 <= j < |d.properties| && |d.properties[j].value| == 0
      ensures d.properties[j].ref in reg || (j > 0 && d.properties[j].ref == d.id)
    {
      assert defs[0] == d && defs[..0] == [];
    }
    forall k, j | 0 <= k < |rest| && 0 <= j < |rest[k].properties| && |rest[k].properties[j].value| == 0
      ensures || rest[k].properties[j].ref in Registrations(reg1, next + 1, rest[..k])
              || (j > 0 && rest[k].properties[j].ref == rest[k].id)
    {
      assert defs[k + 1] == rest[k];
      assert defs[..k + 1][1..] == rest[..k];
    }
  }

  /**
   The converse of `ReferencesPointBackward` and `LoadWireable`: when every
   processed definition is wireable and its references point backwards,
   loading succeeds.
   */
  lemma {:induction false} LoadSucceeds(types: TypeTable, st: State, nodes: seq<Node>)
    requires Wireable(types, Processed(types, nodes))
    requires ReferencesBackward(st.registry, |st.heap|, Processed(types, nodes))
    ensures LoadBeans(types, st, nodes).Ok?
    decreases |nodes|, 1
  {
    if |nodes| == 0 {
      assert LoadBeans(types, st, nodes) == Ok(st);
    } else if nodes[0].Other? {
      LoadSkip(types, st, nodes);
      LoadSucceeds(types, st, nodes[1..]);
    } else if nodes[0].def.className !in types {
      assert LoadBeans(types, st, nodes) == Ok(st);
    } else {
      LoadSucceedsElement(types, st, nodes[0].def, nodes);
    }
  }

  /** The step of `LoadSucceeds` for a definition whose class is known. */
  lemma {:induction false} LoadSucceedsElement(types: TypeTable, st: State, d: BeanDef, nodes: seq<Node>)
    requires |nodes| > 0 && nodes[0] == Element(d) && d.className in types
    requires Wireable(types, Processed(types, nodes))
    requires ReferencesBackward(st.registry, |st.heap|, Processed(types, nodes))
    ensures LoadBeans(types, st, nodes).Ok?
    decreases |nodes|, 0
  {
    var rest := Processed(types, nodes[1..]);
    var defs := Processed(types, nodes);
    assert defs == [d] + rest;
    var reg1 := ElementPremises(types, st.registry, |st.heap|, d, rest);
    var st1 := WireStep(types, st, d, nodes);
    LoadSucceeds(types, st1, nodes[1..]);
  }

  /** What the premises of `LoadSucceeds` say about a first definition and about the rest. */
  lemma ElementPremises(types: TypeTable, reg: map<string, ObjId>, next: ObjId, d: BeanDef, rest: seq<BeanDef>)
      returns (reg1: map<string, ObjId>)
    requires Wireable(types, [d] + rest)
    requires ReferencesBackward(reg, next, [d] + rest)
    ensures reg1 == if |d.properties| > 0 then reg[d.id := next] else reg
    ensures WireableDef(types, d) && Wireable(types, rest)
    ensures forall j :: 0 <= j < |d.properties| && |d.properties[j].value| == 0 ==>
              d.properties[j].ref in reg || (j > 0 && d.properties[j].ref == d.id)
    ensures ReferencesBackward(reg1, next + 1, rest)
  {
    reg1 := if |d.properties| > 0 then reg[d.id := next] else reg;
    WireableCons(types, d, rest);
    ReferencesUnshift(reg, next, d, rest);
  }

  /**
   A wireable definition whose references are registered before it, or are
   its own id after its first property, loads and hands on its state.
   */
  lemma {:induction false} WireStep(types: TypeTable, st: State, d: BeanDef, nodes: seq<Node>) returns (st1: State)
    requires |nodes| > 0 && nodes[0] == Element(d) && WireableDef(types, d)
    requires forall j :: 0 <= j < |d.properties| && |d.properties[j].value| == 0 ==>
               d.properties[j].ref in st.registry || (j > 0 && d.properties[j].ref == d.id)
    ensures LoadBeans(types, st, nodes) == LoadBeans(types, st1, nodes[1..])
    ensures |st1.heap| == |st.heap| + 1
    ensures st1.registry == if |d.properties| > 0 then st.registry[d.id := |st.heap|] else st.registry
  {
    var (heap1, o) := Instantiate(st.heap, d.className);
    var st0 := State(heap1, st.registry);
    var declared := types[d.className].declaredFields;
    WireSucceeds(declared, st0, d.id, o, d.properties);
    st1 := WireProperties(declared, st0, d.id, o, d.properties).value;
  }

  /**
   Exactly when loading succeeds: every definition it reaches is wireable and
   refers only to beans registered before it, or to itself after its first
   property.
   */
  lemma LoadSucceedsIff(types: TypeTable, nodes: seq<Node>)
    ensures Load(types, nodes).Ok? <==>
              Wireable(types, Processed(types, nodes)) && ReferencesBackward(map[], 0, Processed(types, nodes))
  {
    if Load(types, nodes).Ok? {
      LoadWireable(types, Empty, nodes);
      ReferencesPointBackward(types, Empty, nodes);
    }
    if Wireable(types, Processed(types, nodes)) && ReferencesBackward(map[], 0, Processed(types, nodes)) {
      LoadSucceeds(types, Empty, nodes);
    }
  }
}
