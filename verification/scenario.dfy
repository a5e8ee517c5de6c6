/**
 The container's worked example: a `Wheel` bean with two literal properties
 and a `Car` bean whose `wheel` field refers to it, separated by the text
 nodes a pretty-printed document has between its elements.
 */
module Scenario {
  import opened Beans
  import opened Container
  import opened Loader

  /** `Wheel` declares `brand` and `specification`; `Car` declares `wheel`; `Engine` declares nothing. */
  const Types: TypeTable := map[
    "ioc.Wheel" := TypeInfo({"brand", "specification"}, true),
    "ioc.Car" := TypeInfo({"wheel"}, true),
    "ioc.Engine" := TypeInfo({}, true)]

  const FrontWheel: BeanDef :=
    BeanDef("frontWheel", "ioc.Wheel", [Property("brand", "Michelin", ""), Property("specification", "225/45R17", "")])

  const CarBean: BeanDef := BeanDef("car", "ioc.Car", [Property("wheel", "", "frontWheel")])

  /** A bean with no property element. */
  const Engine: BeanDef := BeanDef("engine", "ioc.Engine", [])

  /** The wheel after its first and after both of its properties are wired. */
  const WheelHalf: Obj := Obj("ioc.Wheel", map["brand" := Literal("Michelin")])
  const WheelDone: Obj := Obj("ioc.Wheel", map["brand" := Literal("Michelin"), "specification" := Literal("225/45R17")])
  const CarDone: Obj := Obj("ioc.Car", map["wheel" := Reference(0)])

  /** The two entries of the type table. */
  lemma TypesEntries()
    ensures "ioc.Wheel" in Types && Types["ioc.Wheel"] == TypeInfo({"brand", "specification"}, true)
    ensures "ioc.Car" in Types && Types["ioc.Car"] == TypeInfo({"wheel"}, true)
    ensures "ioc.Engine" in Types && Types["ioc.Engine"] == TypeInfo({}, true)
  {
  }

  /** The wheel's brand, then its specification; it is registered under its id. */
  lemma WireFrontWheel()
    ensures WireProperties({"brand", "specification"}, State([Obj("ioc.Wheel", map[])], map[]), "frontWheel", 0, FrontWheel.properties)
         == Ok(State([WheelDone], map["frontWheel" := 0]))
  {
    var declared: set<string> := {"brand", "specification"};
    var start := State([Obj("ioc.Wheel", map[])], map[]);
    var half := State([WheelHalf], map["frontWheel" := 0]);
    var done := State([WheelDone], map["frontWheel" := 0]);
    var p0 := Property("brand", "Michelin", "");
    var p1 := Property("specification", "225/45R17", "");
    assert FrontWheel.properties == [p0, p1];
    assert WireProperty(declared, start, "frontWheel", 0, p0) == Ok(half) by {
      assert ResolveValue(map[], p0) == Ok(Literal("Michelin"));
      assert SetField(start.heap, 0, "brand", Literal("Michelin")) == [WheelHalf] by {
        assert map[]["brand" := Literal("Michelin")] == WheelHalf.fields;
      }
      assert map[]["frontWheel" := 0] == half.registry;
    }
    assert WireProperty(declared, half, "frontWheel", 0, p1) == Ok(done) by {
      assert ResolveValue(half.registry, p1) == Ok(Literal("225/45R17"));
      assert SetField([WheelHalf], 0, "specification", Literal("225/45R17")) == [WheelDone] by {
        assert WheelHalf.fields["specification" := Literal("225/45R17")] == WheelDone.fields;
      }
      assert half.registry["frontWheel" := 0] == half.registry;
    }
    assert [p0, p1][1..] == [p1] && [p1][1..] == [];
    assert WireProperties(declared, done, "frontWheel", 0, []) == Ok(done);
    assert WireProperties(declared, half, "frontWheel", 0, [p1]) == Ok(done);
  }

  /** The car's only property resolves `frontWheel` to object 0. */
  lemma WireCar()
    ensures WireProperties({"wheel"}, State([WheelDone, Obj("ioc.Car", map[])], map["frontWheel" := 0]), "car", 1, CarBean.properties)
         == Ok(State([WheelDone, CarDone], map["frontWheel" := 0, "car" := 1]))
  {
    var st := State([WheelDone, Obj("ioc.Car", map[])], map["frontWheel" := 0]);
    var p := Property("wheel", "", "frontWheel");
    assert CarBean.properties == [p];
    assert ResolveValue(st.registry, p) == Ok(Reference(0));
    assert SetField(st.heap, 1, "wheel", Reference(0)) == [WheelDone, CarDone] by {
      assert map[]["wheel" := Reference(0)] == CarDone.fields;
    }
    assert WireProperty({"wheel"}, st, "car", 1, p) == Ok(State([WheelDone, CarDone], map["frontWheel" := 0, "car" := 1]));
    assert [p][1..] == [];
  }

  /** The wheel registered, then the car wired against it, the trailing text skipped. */
  lemma LoadCarAfterWheel()
    ensures LoadBeans(Types, State([WheelDone], map["frontWheel" := 0]), [Other, Element(CarBean), Other])
         == Ok(State([WheelDone, CarDone], map["frontWheel" := 0, "car" := 1]))
  {
    var st1 := State([WheelDone], map["frontWheel" := 0]);
    var st2 := State([WheelDone, CarDone], map["frontWheel" := 0, "car" := 1]);
    TypesEntries();
    WireCar();
    assert st1.heap + [Obj("ioc.Car", map[])] == [WheelDone, Obj("ioc.Car", map[])];
    LoadSkip(Types, st1, [Other, Element(CarBean), Other]);
    assert [Other, Element(CarBean), Other][1..] == [Element(CarBean)] + [Other];
    LoadElement(Types, st1, CarBean, [Other], st2);
    LoadSkip(Types, st2, [Other]);
    assert [Other][1..] == [];
  }

  /** The whole document: text, the wheel, text, the car, text. */
  const Document: seq<Node> := [Other, Element(FrontWheel), Other, Element(CarBean), Other]

  /** Loading the document yields the wired wheel and car, registered under their ids. */
  lemma LoadDocument()
    ensures Load(Types, Document) == Ok(State([WheelDone, CarDone], map["frontWheel" := 0, "car" := 1]))
  {
    var st1 := State([WheelDone], map["frontWheel" := 0]);
    TypesEntries();
    WireFrontWheel();
    LoadCarAfterWheel();
    assert Empty.heap + [Obj("ioc.Wheel", map[])] == [Obj("ioc.Wheel", map[])];
    LoadSkip(Types, Empty, Document);
    assert Document[1..] == [Element(FrontWheel)] + [Other, Element(CarBean), Other];
    LoadElement(Types, Empty, FrontWheel, [Other, Element(CarBean), Other], st1);
  }

  /** The car's `wheel` field is the very object registered as `frontWheel`, whose brand is the literal. */
  lemma WheelThenCar()
    ensures var r := Load(Types, Document);
      && r.Ok?
      && GetBean(r.value.registry, "frontWheel") == Ok(0)
      && GetBean(r.value.registry, "car") == Ok(1)
      && |r.value.heap| == 2
      && r.value.heap[1].fields == map["wheel" := Reference(0)]
      && r.value.heap[0].fields == map["brand" := Literal("Michelin"), "specification" := Literal("225/45R17")]
  {
    LoadDocument();
  }

  /** Declared in the other order, the car's reference is a forward reference and loading fails. */
  lemma CarThenWheel()
    ensures Load(Types, [Element(CarBean), Element(FrontWheel)]) == Err(NoSuchBean("frontWheel"))
  {
  }

  /** The bean without properties is instantiated but cannot be looked up afterwards. */
  lemma EngineIsDropped()
    ensures var r := Load(Types, [Element(FrontWheel), Element(Engine)]);
      r.Ok? && |r.value.heap| == 2 && GetBean(r.value.registry, "engine") == Err(NoSuchBean("engine"))
  {
    var st1 := State([WheelDone], map["frontWheel" := 0]);
    var st2 := State([WheelDone, Obj("ioc.Engine", map[])], st1.registry);
    assert [Element(FrontWheel), Element(Engine)] == [Element(FrontWheel)] + ([Element(Engine)] + []);
    TypesEntries();
    WireFrontWheel();
    assert Empty.heap + [Obj("ioc.Wheel", map[])] == [Obj("ioc.Wheel", map[])];
    LoadElement(Types, Empty, FrontWheel, [Element(Engine)] + [], st1);
    assert Engine.properties == [];
    assert st1.heap + [Obj("ioc.Engine", map[])] == st2.heap;
    LoadElement(Types, st1, Engine, [], st2);
  }

  /** An unknown class in the middle ends loading quietly: the car after it is never loaded. */
  lemma UnknownClassInTheMiddle()
    ensures var r := Load(Types, [Element(FrontWheel), Element(BeanDef("x", "ioc.Missing", [])), Element(CarBean)]);
      r.Ok? && GetBean(r.value.registry, "frontWheel") == Ok(0) && GetBean(r.value.registry, "car") == Err(NoSuchBean("car"))
  {
    var missing := BeanDef("x", "ioc.Missing", []);
    var st1 := State([WheelDone], map["frontWheel" := 0]);
    assert [Element(FrontWheel), Element(missing), Element(CarBean)] == [Element(FrontWheel)] + [Element(missing)] + [Element(CarBean)];
    TypesEntries();
    assert "ioc.Missing" !in Types;
    UnknownClassStops(Types, Empty, [Element(FrontWheel)], missing, [Element(CarBean)]);
    WireFrontWheel();
    assert Empty.heap + [Obj("ioc.Wheel", map[])] == [Obj("ioc.Wheel", map[])];
    assert [Element(FrontWheel)] == [Element(FrontWheel)] + [];
    LoadElement(Types, Empty, FrontWheel, [], st1);
  }
}
