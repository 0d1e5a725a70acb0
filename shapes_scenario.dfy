/** A client of the factory: base type Shape with subtypes Circle and Square, each
    delegate reading and writing the object's fields as a JSON object. What is asserted
    here follows from the contracts of the factory and the lemmas about its adapter. */
module ShapesScenario {
  import opened Wrappers
  import opened JsonValues
  import opened Reflection
  import opened LinkedMap
  import opened RuntimeJsonAdapters

  /** A reflective adapter for class `cls`: an object's fields are its JSON members. */
  function FieldsAdapter(cls: TypeId): Delegate {
    Delegate(
      (document: Json) => if document.JObject? then Success(Object(cls, document.fields))
                          else Failure(DelegateFailure("JsonDataException", "expected an object")),
      (value: Value) => if value.Object? then Success(JObject(value.fields))
                        else Failure(NullPointer))
  }

  /** The registry after registering Circle and Square under Shape. */
  const Registered: seq<(TypeId, Label)> := [("Circle", "circle"), ("Square", "square")]

  method RegisterShapes() returns (factory: RuntimeJsonAdapterFactory)
    ensures factory.Valid() && factory.baseType == "Shape" && factory.labelKey == "label"
    ensures factory.typeToLabel == Registered
  {
    var shapes := Hierarchy(map["Circle" := {"Shape"}, "Square" := {"Shape"}, "Point" := {}]);
    assert Closed(shapes);
    factory := new RuntimeJsonAdapterFactory("Shape", "label", shapes);
    var r := factory.RegisterSubtype("Circle", "circle");
    assert r == Success(factory);
    r := factory.RegisterSubtype("Square", "square");
    assert r == Success(factory);
    r := factory.RegisterSubtype("Point", "point");
    assert r == Failure(IllegalArgument("Point", "Shape"));
    var declined := factory.Create("Point", FieldsAdapter);
    assert declined == None;
  }

  method DecodeShapes() {
    var factory := RegisterShapes();
    var created := factory.Create("Shape", FieldsAdapter);
    var adapter := created.value;
    assert adapter == Resolve(Registered, "label", FieldsAdapter);

    var square := JObject(map["label" := JString("square"), "side" := JNumber(3.0)]);
    FromJsonDispatches(Registered, "label", FieldsAdapter, square, 1);
    assert adapter.FromJson(square) == Success(Object("Square", square.fields));

    var triangle := JObject(map["label" := JString("triangle"), "a" := JNumber(1.0)]);
    FromJsonRejects(Registered, "label", FieldsAdapter, triangle);
    assert Registered[0].1 != "triangle" && Registered[1].1 != "triangle";
    assert adapter.FromJson(triangle) == Failure(UnknownLabel("triangle"));

    var numbered := JObject(map["label" := JNumber(42.0)]);
    FromJsonRejects(Registered, "label", FieldsAdapter, numbered);
    assert adapter.FromJson(numbered) == Failure(LabelNotString("label", JNumber(42.0)));
    var unlabelled := JObject(map["side" := JNumber(3.0)]);
    FromJsonRejects(Registered, "label", FieldsAdapter, unlabelled);
    assert adapter.FromJson(unlabelled) == Failure(MissingLabel("label"));
  }

  method EncodeShapes() {
    var factory := RegisterShapes();
    var created := factory.Create("Shape", FieldsAdapter);
    var adapter := created.value;
    assert adapter == Resolve(Registered, "label", FieldsAdapter);

    var circle := Object("Circle", map["label" := JString("circle"), "radius" := JNumber(2.0)]);
    RoundTrip(Registered, "label", FieldsAdapter, 0, circle, JObject(circle.fields));
    assert adapter.ToJson(circle) == Success(JObject(circle.fields));
    assert adapter.FromJson(JObject(circle.fields)) == Success(circle);

    var point := Object("Point", map[]);
    ToJsonByExactClass(Registered, "label", FieldsAdapter, point);
    assert Registered[0].0 != "Point" && Registered[1].0 != "Point";
    assert adapter.ToJson(point) == Failure(TypeNotRegistered("Point"));
  }
}
