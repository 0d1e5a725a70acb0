# RuntimeJsonAdapterFactory, modelled in Dafny

A model of Moshi's `RuntimeJsonAdapterFactory` recipe, a polymorphic JSON adapter factory.
A factory is configured with a base type and the name of a label field. Subtypes of the base
type are registered under string labels. For a requested subtype of the base type, `create`
asks Moshi for one delegate adapter per registered type. It files each delegate twice: once
under the type's label, once under the type itself. The adapter it returns works in two
directions:

- decoding reads the label out of an already-parsed JSON object and hands the whole object
  to that label's delegate;
- encoding hands a value to the delegate of its exact runtime class.

Files and modules:

- `wrappers.dfy` (`Wrappers`): `Option` and `Result`.
- `json_values.dfy` (`JsonValues`): the parsed JSON tree `readJsonValue` yields.
- `reflection.dfy` (`Reflection`): class identities and `isAssignableFrom` over a given class
  hierarchy (`Closed` says its supertype lists are transitive, under which
  `AssignableTransitive` proves the relation transitive as in Java); a Java reference as null or an object with its exact runtime class.
- `linked_map.dfy` (`LinkedMap`): `LinkedHashMap` as a sequence of entries in insertion
  order, with `get` and `put`.
- `runtime_json_adapter_factory.dfy` (`RuntimeJsonAdapters`): the exceptions as an `Error`
  datatype; delegates; the created adapter as an immutable `Adapter` datatype with
  `FromJson` and `ToJson`; the factory as a class whose `typeToLabel` registry
  `RegisterSubtype` updates in place and whose `Create` builds the two tables in a loop.
  `LabelTable` and `SubtypeTable` are the specification functions of that loop.
- `shapes_scenario.dfy` (`ShapesScenario`): a client with base type Shape and subtypes Circle
  and Square, checking registration, decoding, encoding and the error paths through the
  contracts of the factory and the lemmas about its adapter.

Behaviours of the code a caller may not expect:

- The code does not reject two types registered under the same label. The later binding in
  iteration order then wins in `labelToDelegate`, as `LabelTableLastWins` states.
- Re-registering a type overwrites its label and keeps its first position, as
  `LinkedHashMap.put` does.
- A label field holding JSON null is reported as a missing label, because `Map.get` returns
  null for it.
- A document that is not a JSON object fails the cast at line 52 (`ClassCast`). A JSON null
  document fails on `value.get` (`NullPointer`). Encoding a null value fails on `getClass`
  (`NullPointer`).

## Model

| member | source | states |
|---|---|---|
| `LinkedMap.GetSpec` | examples/src/main/java/com/squareup/moshi/recipes/RuntimeJsonAdapterFactory.java:17 | `get` on the registry finds a type exactly when it has an entry, and then yields that entry's label |
| `LinkedMap.PutSpec` | examples/src/main/java/com/squareup/moshi/recipes/RuntimeJsonAdapterFactory.java:30 | `put` overwrites a present type's label in place or appends a new entry; all other entries keep key, label and position; keys stay unique |
| `LinkedMap.PutThenGet` | examples/src/main/java/com/squareup/moshi/recipes/RuntimeJsonAdapterFactory.java:30 | after `put(t, l)`, `get(t)` is `l` |
| `LinkedMap.PutThenGetOther` | examples/src/main/java/com/squareup/moshi/recipes/RuntimeJsonAdapterFactory.java:30 | after `put(t, l)`, `get(u)` for any other type is unchanged |
| `RuntimeJsonAdapters.RuntimeJsonAdapterFactory.constructor` | examples/src/main/java/com/squareup/moshi/recipes/RuntimeJsonAdapterFactory.java:21-24 | a new factory keeps its base type and label key and has an empty registry |
| `RuntimeJsonAdapters.RuntimeJsonAdapterFactory.RegisterSubtype` | examples/src/main/java/com/squareup/moshi/recipes/RuntimeJsonAdapterFactory.java:26-32 | a non-subtype of the base type gives `IllegalArgument` and an unchanged registry; otherwise the type maps to the new label, every other binding is unchanged, the key order is kept (a new type is appended), and the same factory is returned; the registry invariant is kept |
| `RuntimeJsonAdapters.RuntimeJsonAdapterFactory.Create` | examples/src/main/java/com/squareup/moshi/recipes/RuntimeJsonAdapterFactory.java:35-48 | declines exactly when the requested type is not assignable to the base type; otherwise the type table's keys are exactly the registered types, each mapped to Moshi's delegate for it, the label table's keys are exactly the registered labels, and with distinct labels both tables give each type the same delegate |
| `RuntimeJsonAdapters.SubtypeTableSpec` | examples/src/main/java/com/squareup/moshi/recipes/RuntimeJsonAdapterFactory.java:42-47 | the type table built by the loop has the registered types as keys and maps each type to `nextAdapter` of that type |
| `RuntimeJsonAdapters.LabelTableKeys` | examples/src/main/java/com/squareup/moshi/recipes/RuntimeJsonAdapterFactory.java:42-46 | the label table built by the loop has exactly the registered labels as keys |
| `RuntimeJsonAdapters.LabelTableLastWins` | examples/src/main/java/com/squareup/moshi/recipes/RuntimeJsonAdapterFactory.java:42-46 | a label maps to the delegate of the last type in iteration order registered under it |
| `RuntimeJsonAdapters.LabelAndSubtypeTablesAgree` | examples/src/main/java/com/squareup/moshi/recipes/RuntimeJsonAdapterFactory.java:45-47 | with pairwise distinct labels, the delegate under a type's label is the delegate under the type |
| `RuntimeJsonAdapters.Adapter.FromJson` | examples/src/main/java/com/squareup/moshi/recipes/RuntimeJsonAdapterFactory.java:50-70 | decoding succeeds only for a JSON object whose label is a string present in the label table, and then yields that label's delegate applied to the whole document |
| `RuntimeJsonAdapters.Adapter.ToJson` | examples/src/main/java/com/squareup/moshi/recipes/RuntimeJsonAdapterFactory.java:72-79 | encoding succeeds only for a non-null value whose exact class is in the type table, and then yields what that class's delegate writes |
| `RuntimeJsonAdapters.FromJsonRejects` | examples/src/main/java/com/squareup/moshi/recipes/RuntimeJsonAdapterFactory.java:52-67 | against the registry: a null document fails with `NullPointer`, a non-object with `ClassCast`, an absent or null label with `MissingLabel`, a non-string label with `LabelNotString`, and a string label that no binding has with `UnknownLabel` |
| `RuntimeJsonAdapters.FromJsonDispatches` | examples/src/main/java/com/squareup/moshi/recipes/RuntimeJsonAdapterFactory.java:65-69 | a registered string label sends the entire unmodified document, label field included, to the delegate of the last type registered under that label; its result or error is returned unchanged |
| `RuntimeJsonAdapters.ToJsonByExactClass` | examples/src/main/java/com/squareup/moshi/recipes/RuntimeJsonAdapterFactory.java:72-79 | a null value fails with `NullPointer`; an object whose exact class is not registered fails with `TypeNotRegistered`, even if a supertype is registered; otherwise the output is exactly what Moshi's delegate for that class writes, with no label added |
| `RuntimeJsonAdapters.ToJsonOnlySubtypes` | examples/src/main/java/com/squareup/moshi/recipes/RuntimeJsonAdapterFactory.java:27-30 | because registration admits only subtypes of the base type, encoding an object of any other class fails with `TypeNotRegistered` |
| `RuntimeJsonAdapters.RoundTrip` | examples/src/main/java/com/squareup/moshi/recipes/RuntimeJsonAdapterFactory.java:49-80 | if a registered type's delegate writes its own label under the label key and reads back what it wrote, and no later type took that label, then encoding gives that document and decoding it gives back the value |

## Left out

- `JsonReader`, `JsonWriter` and `readJsonValue` are byte-stream I/O. Decoding starts from the parsed JSON tree. Encoding yields the JSON the delegate writes instead of writing to a stream.
- `moshi.nextAdapter` and the delegates' own `fromJsonValue` and `toJson` are foreign calls. They are parameters: `nextAdapter` is a total function to delegates, and a delegate is a pair of functions whose errors pass through unchanged. A failure of `nextAdapter` inside `create` is not modelled.
- Java reflection is replaced by a given class hierarchy (`isAssignableFrom`) and a runtime class carried by each object. `Types.getRawType` is left out: `Create` receives the raw requested type.
- The annotations passed to `create` only reach `nextAdapter`, which is a parameter, so they are left out.
- Exception messages are not modelled; each `Error` constructor stands for the exception class named in its comment.
- Null types, null labels and a null label key are not modelled: types and labels are never null here.
- The two delegate tables are `LinkedHashMap`s in the source and maps here. Only `get` is ever applied to them, so their order is not observable.
- The members of a parsed JSON object are a Dafny map, so their order is not modelled. The core never iterates a document, but the "entire, unmodified document" handed to a delegate is the same document only up to member order.
- JSON numbers are Dafny reals; the `Double` rounding of Moshi's reader is not modelled.
- Concurrency: the source has none.
- `RuntimeJsonAdapters.Adapter.FromJson`: its own contract states only the success case; every failure is stated against the registry by `FromJsonRejects`.
- `RuntimeJsonAdapters.Adapter.ToJson`: its own contract states only the success case; the failures are stated by `ToJsonByExactClass`.
