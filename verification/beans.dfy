/**
 The data model of the SimpleIOC container once the XML document and Java
 reflection are abstracted away.

 - A parsed configuration is a sequence of root child nodes; element nodes
   carry a bean definition, every other node (text, comments) is skipped.
 - Reflection is replaced by a type table: a class name maps to the set of
   fields the class declares and to whether a no-argument instance can be made.
 - The Java heap is a sequence of objects; an object's identity is its
   allocation index, so a fresh object is always the next index.
 - The container's `beanMap` is a map from bean id to object identity.
 */
module Beans {

  /** The identity of an object: its index on the heap. */
  type ObjId = nat

  /** What a wired field holds: a literal string or a reference to an object. */
  datatype Value = Literal(text: string) | Reference(target: ObjId)

  /** An instance: its class and the fields the container has set so far. */
  datatype Obj = Obj(className: string, fields: map<string, Value>)

  /** What reflection reports about a class: its declared fields and whether `newInstance` succeeds. */
  datatype TypeInfo = TypeInfo(declaredFields: set<string>, instantiable: bool)

  /** Stands in for `Class.forName`: a class name absent from the table is not found. */
  type TypeTable = map<string, TypeInfo>

  /** A `<property>` element. A missing attribute reads as the empty string. */
  datatype Property = Property(name: string, value: string, ref: string)

  /** A `<bean>` element: its `id`, its `class` and its property elements in document order. */
  datatype BeanDef = BeanDef(id: string, className: string, properties: seq<Property>)

  /** A child node of the document root. */
  datatype Node = Element(def: BeanDef) | Other

  /** The heap of objects and the registry of beans. */
  datatype State = State(heap: seq<Obj>, registry: map<string, ObjId>)

  /** The exceptions that escape from loading or lookup. */
  datatype LoadError =
    | NoSuchBean(name: string)              // IllegalArgumentException thrown by getBean
    | RefConfigError                        // IllegalArgumentException("ref config error")
    | NoSuchField(className: string, field: string)  // NoSuchFieldException from getDeclaredField
    | InstantiationFailed(className: string)         // InstantiationException from newInstance

  /** The outcome of an operation that may throw one of the errors above. */
  datatype Result<+T> = Ok(value: T) | Err(error: LoadError) {

    predicate IsFailure() {
      Err?
    }

    function PropagateFailure<U>(): Result<U>
      requires Err?
    {
      Err(error)
    }

    function Extract(): T
      requires Ok?
    {
      value
    }
  }

  /** The container before anything is loaded. */
  const Empty: State := State([], map[])

  /** A value refers only to objects below `size`. */
  predicate ValueWithin(v: Value, size: nat) {
    v.Reference? ==> v.target < size
  }

  /** Every field of `obj` refers only to objects below `size`. */
  predicate ObjWithin(obj: Obj, size: nat) {
    forall f :: f in obj.fields ==> ValueWithin(obj.fields[f], size)
  }

  /** No dangling identities: registry entries and field references all name existing objects. */
  predicate Valid(st: State) {
    && (forall id :: id in st.registry ==> st.registry[id] < |st.heap|)
    && (forall o :: 0 <= o < |st.heap| ==> ObjWithin(st.heap[o], |st.heap|))
  }
}
