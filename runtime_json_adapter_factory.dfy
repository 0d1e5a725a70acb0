/** The polymorphic JSON adapter factory of the Moshi recipes: subtypes of a base
    type are registered with a string label; the adapter it creates decodes a JSON
    object by reading that label and handing the whole object to the label's delegate,
    and encodes a value by handing it to the delegate of its exact runtime class. */
module RuntimeJsonAdapters {
  import opened Wrappers
  import opened JsonValues
  import opened Reflection
  import opened LinkedMap

  type Label = string

  /** The exceptions the factory and its adapter throw, by Java exception class. */
  datatype Error =
      /** IllegalArgumentException: a registered type is not a subtype of the base type. */
    | IllegalArgument(subtype: TypeId, baseType: TypeId)
      /** JsonDataException: the document has no label, or a JSON null one. */
    | MissingLabel(labelKey: string)
      /** JsonDataException: the label is present but is not a JSON string. */
    | LabelNotString(labelKey: string, found: Json)
      /** JsonDataException: no subtype is registered under this label. */
    | UnknownLabel(unregistered: Label)
      /** IllegalStateException: the value's runtime class was never registered. */
    | TypeNotRegistered(runtimeClass: TypeId)
      /** ClassCastException: the document read is not a JSON object. */
    | ClassCast
      /** NullPointerException: the document read is JSON null, or the value encoded is null. */
    | NullPointer
      /** Whatever a delegate adapter throws; the factory passes it on unchanged. */
    | DelegateFailure(exception: string, message: string)

  /** The adapter Moshi supplies for one concrete subtype (`moshi.nextAdapter`):
      its `fromJsonValue` and its `toJson`, the latter given as the JSON it writes. */
  datatype Delegate = Delegate(
    fromJsonValue: Json -> Result<Value, Error>,
    toJson: Value -> Result<Json, Error>)

  /** The anonymous adapter `create` returns; its two tables are frozen at creation. */
  datatype Adapter = Adapter(
    labelKey: string,
    labelToDelegate: map<Label, Delegate>,
    subtypeToDelegate: map<TypeId, Delegate>)
  {
    /** `fromJson` on the already-parsed document. */
    function FromJson(document: Json): (r: Result<Value, Error>)
      ensures r.Success? ==>
        && document.JObject?
        && labelKey in document.fields
        && document.fields[labelKey].JString?
        && document.fields[labelKey].s in labelToDelegate
        && r == labelToDelegate[document.fields[labelKey].s].fromJsonValue(document)
    {
      match document
      case JNull => Failure(NullPointer)
      case JObject(fields) =>
        if labelKey !in fields || fields[labelKey].JNull? then Failure(MissingLabel(labelKey))
        else if !fields[labelKey].JString? then Failure(LabelNotString(labelKey, fields[labelKey]))
        else
          var tag := fields[labelKey].s;
          if tag !in labelToDelegate then Failure(UnknownLabel(tag))
          else labelToDelegate[tag].fromJsonValue(document)
      case _ => Failure(ClassCast)
    }

    /** `toJson`: the JSON written for `value`. */
    function ToJson(value: Value): (r: Result<Json, Error>)
      ensures r.Success? ==>
        && value.Object?
        && value.runtimeClass in subtypeToDelegate
        && r == subtypeToDelegate[value.runtimeClass].toJson(value)
    {
      match value
      case Null => Failure(NullPointer)
      case Object(runtimeClass, _) =>
        if runtimeClass !in subtypeToDelegate then Failure(TypeNotRegistered(runtimeClass))
        else subtypeToDelegate[runtimeClass].toJson(value)
    }
  }

  /** The registered types. */
  function RegisteredTypes(bindings: seq<(TypeId, Label)>): set<TypeId> {
    set i | 0 <= i < |bindings| :: bindings[i].0
  }

  /** The registered labels. */
  function RegisteredLabels(bindings: seq<(TypeId, Label)>): set<Label> {
    set i | 0 <= i < |bindings| :: bindings[i].1
  }

  /** No binding after the i-th reuses its label: the i-th is the last to claim it. */
  ghost predicate LastWithLabel(bindings: seq<(TypeId, Label)>, i: int)
    requires 0 <= i < |bindings|
  {
    forall j :: i < j < |bindings| ==> bindings[j].1 != bindings[i].1
  }

  /** No two bindings share a label. */
  ghost predicate DistinctLabels(bindings: seq<(TypeId, Label)>) {
    forall i, j :: 0 <= i < j < |bindings| ==> bindings[i].1 != bindings[j].1
  }

  /** `labelToDelegate` after the loop of `create` has put the delegate of every binding
      under its label, in iteration order. */
  function LabelTable(bindings: seq<(TypeId, Label)>, nextAdapter: TypeId -> Delegate): map<Label, Delegate> {
    if bindings == [] then map[]
    else
      var last := bindings[|bindings| - 1];
      LabelTable(bindings[..|bindings| - 1], nextAdapter)[last.1 := nextAdapter(last.0)]
  }

  /** `subtypeToDelegate` after the loop of `create` has put the delegate of every binding
      under its type, in iteration order. */
  function SubtypeTable(bindings: seq<(TypeId, Label)>, nextAdapter: TypeId -> Delegate): map<TypeId, Delegate> {
    if bindings == [] then map[]
    else
      var last := bindings[|bindings| - 1];
      SubtypeTable(bindings[..|bindings| - 1], nextAdapter)[last.0 := nextAdapter(last.0)]
  }

  /** The adapter `create` builds from the bindings in iteration order. */
  function Resolve(bindings: seq<(TypeId, Label)>, labelKey: string, nextAdapter: TypeId -> Delegate): Adapter {
    Adapter(labelKey, LabelTable(bindings, nextAdapter), SubtypeTable(bindings, nextAdapter))
  }

  lemma RegisteredSetsOfPrefix(bindings: seq<(TypeId, Label)>)
    requires bindings != []
    ensures RegisteredTypes(bindings) == RegisteredTypes(bindings[..|bindings| - 1]) + {bindings[|bindings| - 1].0}
    ensures RegisteredLabels(bindings) == RegisteredLabels(bindings[..|bindings| - 1]) + {bindings[|bindings| - 1].1}
  {
    var front := bindings[..|bindings| - 1];
    assert forall i :: 0 <= i < |front| ==> front[i] == bindings[i];
  }

  /** The type table has exactly the registered types as keys, and maps each to the
      delegate Moshi supplied for that type. */
  lemma {:induction false} SubtypeTableSpec(bindings: seq<(TypeId, Label)>, nextAdapter: TypeId -> Delegate)
    ensures SubtypeTable(bindings, nextAdapter).Keys == RegisteredTypes(bindings)
    ensures forall t :: t in SubtypeTable(bindings, nextAdapter) ==> SubtypeTable(bindings, nextAdapter)[t] == nextAdapter(t)
  {
    if bindings != [] {
      SubtypeTableSpec(bindings[..|bindings| - 1], nextAdapter);
      RegisteredSetsOfPrefix(bindings);
    }
  }

  /** The label table has exactly the registered labels as keys. */
  lemma {:induction false} LabelTableKeys(bindings: seq<(TypeId, Label)>, nextAdapter: TypeId -> Delegate)
    ensures LabelTable(bindings, nextAdapter).Keys == RegisteredLabels(bindings)
  {
    if bindings != [] {
      LabelTableKeys(bindings[..|bindings| - 1], nextAdapter);
      RegisteredSetsOfPrefix(bindings);
    }
  }

  /** When two types share a label, the later binding in iteration order wins: a label
      maps to the delegate of the last type registered under it. */
  lemma {:induction false} LabelTableLastWins(bindings: seq<(TypeId, Label)>, nextAdapter: TypeId -> Delegate, i: nat)
    requires i < |bindings| && LastWithLabel(bindings, i)
    ensures bindings[i].1 in LabelTable(bindings, nextAdapter)
    ensures LabelTable(bindings, nextAdapter)[bindings[i].1] == nextAdapter(bindings[i].0)
  {
    if i < |bindings| - 1 {
      var front := bindings[..|bindings| - 1];
      assert LastWithLabel(front, i) by {
        forall j | i < j < |front| ensures front[j].1 != front[i].1 {
          assert front[j] == bindings[j];
        }
      }
      LabelTableLastWins(front, nextAdapter, i);
    }
  }

  /** With pairwise distinct labels, both tables lead every registered type to the same
      delegate: the one under its label is the one under its type. */
  lemma LabelAndSubtypeTablesAgree(bindings: seq<(TypeId, Label)>, nextAdapter: TypeId -> Delegate)
    requires DistinctLabels(bindings)
    ensures forall i :: 0 <= i < |bindings| ==>
      && bindings[i].1 in LabelTable(bindings, nextAdapter)
      && bindings[i].0 in SubtypeTable(bindings, nextAdapter)
      && LabelTable(bindings, nextAdapter)[bindings[i].1] == SubtypeTable(bindings, nextAdapter)[bindings[i].0]
  {
    SubtypeTableSpec(bindings, nextAdapter);
    forall i | 0 <= i < |bindings|
      ensures bindings[i].1 in LabelTable(bindings, nextAdapter)
      ensures LabelTable(bindings, nextAdapter)[bindings[i].1] == nextAdapter(bindings[i].0)
    {
      LabelTableLastWins(bindings, nextAdapter, i);
    }
  }

  /** Decoding against the registry: every failure of `fromJson` that is not a delegate's own. */
  lemma FromJsonRejects(bindings: seq<(TypeId, Label)>, labelKey: string, nextAdapter: TypeId -> Delegate, document: Json)
    ensures var r := Resolve(bindings, labelKey, nextAdapter).FromJson(document);
      && (document.JNull? ==> r == Failure(NullPointer))
      && (!document.JNull? && !document.JObject? ==> r == Failure(ClassCast))
      && (document.JObject? && (labelKey !in document.fields || document.fields[labelKey].JNull?) ==>
            r == Failure(MissingLabel(labelKey)))
      && (document.JObject? && labelKey in document.fields
          && !document.fields[labelKey].JNull? && !document.fields[labelKey].JString? ==>
            r == Failure(LabelNotString(labelKey, document.fields[labelKey])))
      && (document.JObject? && labelKey in document.fields && document.fields[labelKey].JString?
          && document.fields[labelKey].s !in RegisteredLabels(bindings) ==>
            r == Failure(UnknownLabel(document.fields[labelKey].s)))
  {
    LabelTableKeys(bindings, nextAdapter);
  }

  /** Decoding a document whose label is registered: the delegate of the last type registered
      under that label receives the entire, unmodified document, label field included, and
      its result, value or error, is the adapter's. */
  lemma FromJsonDispatches(bindings: seq<(TypeId, Label)>, labelKey: string, nextAdapter: TypeId -> Delegate,
                           document: Json, i: nat)
    requires i < |bindings| && LastWithLabel(bindings, i)
    requires document.JObject? && labelKey in document.fields
    requires document.fields[labelKey] == JString(bindings[i].1)
    ensures Resolve(bindings, labelKey, nextAdapter).FromJson(document) == nextAdapter(bindings[i].0).fromJsonValue(document)
  {
    LabelTableLastWins(bindings, nextAdapter, i);
  }

  /** Encoding against the registry: the delegate is chosen by the value's exact runtime
      class, which must itself be registered (a registered supertype does not do), and the
      adapter writes exactly what that delegate writes, adding no label of its own. */
  lemma ToJsonByExactClass(bindings: seq<(TypeId, Label)>, labelKey: string, nextAdapter: TypeId -> Delegate, value: Value)
    ensures var r := Resolve(bindings, labelKey, nextAdapter).ToJson(value);
      && (value.Null? ==> r == Failure(NullPointer))
      && (value.Object? && value.runtimeClass !in RegisteredTypes(bindings) ==>
            r == Failure(TypeNotRegistered(value.runtimeClass)))
      && (value.Object? && value.runtimeClass in RegisteredTypes(bindings) ==>
            r == nextAdapter(value.runtimeClass).toJson(value))
  {
    SubtypeTableSpec(bindings, nextAdapter);
  }

  /** Every registered type is assignable to the base type. */
  ghost predicate AllSubtypesOf(h: Hierarchy, baseType: TypeId, bindings: seq<(TypeId, Label)>) {
    forall i :: 0 <= i < |bindings| ==> IsAssignableFrom(h, baseType, bindings[i].0)
  }

  /** Since registration admits only subtypes of the base type, the adapter refuses to
      encode any object whose class is not one. */
  lemma ToJsonOnlySubtypes(h: Hierarchy, baseType: TypeId, bindings: seq<(TypeId, Label)>, labelKey: string,
                           nextAdapter: TypeId -> Delegate, value: Value)
    requires AllSubtypesOf(h, baseType, bindings)
    requires value.Object? && !IsAssignableFrom(h, baseType, value.runtimeClass)
    ensures Resolve(bindings, labelKey, nextAdapter).ToJson(value) == Failure(TypeNotRegistered(value.runtimeClass))
  {
    ToJsonByExactClass(bindings, labelKey, nextAdapter, value);
  }

  /** Round trip: if a registered type's delegate writes its own label under the label key
      and reads back what it wrote, and no later type took over that label, then decoding
      what the adapter encodes gives back the value. */
  lemma RoundTrip(bindings: seq<(TypeId, Label)>, labelKey: string, nextAdapter: TypeId -> Delegate,
                  i: nat, value: Value, document: Json)
    requires i < |bindings| && LastWithLabel(bindings, i)
    requires value.Object? && value.runtimeClass == bindings[i].0
    requires nextAdapter(bindings[i].0).toJson(value) == Success(document)
    requires document.JObject? && labelKey in document.fields && document.fields[labelKey] == JString(bindings[i].1)
    requires nextAdapter(bindings[i].0).fromJsonValue(document) == Success(value)
    ensures Resolve(bindings, labelKey, nextAdapter).ToJson(value) == Success(document)
    ensures Resolve(bindings, labelKey, nextAdapter).FromJson(document) == Success(value)
  {
    assert value.runtimeClass in RegisteredTypes(bindings);
    ToJsonByExactClass(bindings, labelKey, nextAdapter, value);
    FromJsonDispatches(bindings, labelKey, nextAdapter, document, i);
  }

  /** The factory: a base type, the name of the label field, and the registry of
      (subtype, label) bindings in registration order. */
  class RuntimeJsonAdapterFactory {
    const baseType: TypeId
    const labelKey: string
    /** The class hierarchy `isAssignableFrom` consults. */
    const hierarchy: Hierarchy
    /** `typeToLabel`, a LinkedHashMap: entries in first-registration order. */
    var typeToLabel: seq<(TypeId, Label)>

    /** Each type is registered once, and only subtypes of the base type are. */
    ghost predicate Valid()
      reads this
    {
      NoDuplicateKeys(typeToLabel) && AllSubtypesOf(hierarchy, baseType, typeToLabel)
    }

    constructor (baseType: TypeId, labelKey: string, hierarchy: Hierarchy)
      ensures Valid()
      ensures this.baseType == baseType && this.labelKey == labelKey && this.hierarchy == hierarchy
      ensures typeToLabel == []
    {
      this.baseType := baseType;
      this.labelKey := labelKey;
      this.hierarchy := hierarchy;
      typeToLabel := [];
    }

    /** `registerSubtype`: rejects a type that is not a subtype of the base type and leaves
        the registry as it was; otherwise binds the type to the label (overwriting its old
        label in place if it had one) and returns this same factory for chaining. */
    method RegisterSubtype(t: TypeId, newLabel: Label) returns (r: Result<RuntimeJsonAdapterFactory, Error>)
      requires Valid()
      modifies this
      ensures Valid()
      ensures !IsAssignableFrom(hierarchy, baseType, t) ==>
        r == Failure(IllegalArgument(t, baseType)) && typeToLabel == old(typeToLabel)
      ensures IsAssignableFrom(hierarchy, baseType, t) ==>
        && r == Success(this)
        && typeToLabel == Put(old(typeToLabel), t, newLabel)
        && Get(typeToLabel, t) == Some(newLabel)
        && (forall u :: u != t ==> Get(typeToLabel, u) == Get(old(typeToLabel), u))
        && Keys(typeToLabel) == (if t in Keys(old(typeToLabel)) then Keys(old(typeToLabel)) else Keys(old(typeToLabel)) + [t])
    {
      if !IsAssignableFrom(hierarchy, baseType, t) {
        return Failure(IllegalArgument(t, baseType));
      }
      ghost var before := typeToLabel;
      PutSpec(before, t, newLabel);
      PutThenGet(before, t, newLabel);
      forall u | u != t ensures Get(Put(before, t, newLabel), u) == Get(before, u) {
        PutThenGetOther(before, t, newLabel, u);
      }
      typeToLabel := Put(typeToLabel, t, newLabel);
      assert AllSubtypesOf(hierarchy, baseType, typeToLabel) by {
        forall i | 0 <= i < |typeToLabel| ensures IsAssignableFrom(hierarchy, baseType, typeToLabel[i].0) {
          if i < |before| {
            assert typeToLabel[i] == if before[i].0 == t then (t, newLabel) else before[i];
          }
        }
      }
      return Success(this);
    }

    /** `create`: declines (null) when the requested type is not a subtype of the base
        type, building nothing; otherwise walks the bindings in order, asks Moshi for each
        type's delegate and files it under both the label and the type. */
    method Create(requested: TypeId, nextAdapter: TypeId -> Delegate) returns (adapter: Option<Adapter>)
      ensures adapter.None? <==> !IsAssignableFrom(hierarchy, baseType, requested)
      ensures adapter.Some? ==> adapter.value == Resolve(typeToLabel, labelKey, nextAdapter)
      ensures adapter.Some? ==>
        && adapter.value.labelKey == labelKey
        && adapter.value.subtypeToDelegate.Keys == RegisteredTypes(typeToLabel)
        && adapter.value.labelToDelegate.Keys == RegisteredLabels(typeToLabel)
        && (forall t :: t in adapter.value.subtypeToDelegate ==> adapter.value.subtypeToDelegate[t] == nextAdapter(t))
        && (DistinctLabels(typeToLabel) ==> forall i :: 0 <= i < |typeToLabel| ==>
              adapter.value.labelToDelegate[typeToLabel[i].1] == adapter.value.subtypeToDelegate[typeToLabel[i].0])
    {
      if !IsAssignableFrom(hierarchy, baseType, requested) {
        return None;
      }
      var labelToDelegate: map<Label, Delegate> := map[];
      var subtypeToDelegate: map<TypeId, Delegate> := map[];
      for i := 0 to |typeToLabel|
        invariant labelToDelegate == LabelTable(typeToLabel[..i], nextAdapter)
        invariant subtypeToDelegate == SubtypeTable(typeToLabel[..i], nextAdapter)
      {
        var (key, value) := typeToLabel[i];
        var delegate := nextAdapter(key);
        labelToDelegate := labelToDelegate[value := delegate];
        subtypeToDelegate := subtypeToDelegate[key := delegate];
        assert typeToLabel[..i + 1][..i] == typeToLabel[..i];
      }
      assert typeToLabel[..|typeToLabel|] == typeToLabel;
      SubtypeTableSpec(typeToLabel, nextAdapter);
      LabelTableKeys(typeToLabel, nextAdapter);
      if DistinctLabels(typeToLabel) {
        LabelAndSubtypeTablesAgree(typeToLabel, nextAdapter);
      }
      adapter := Some(Adapter(labelKey, labelToDelegate, subtypeToDelegate));
    }
  }
}
