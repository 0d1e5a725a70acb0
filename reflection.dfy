/** What the adapter needs from Java reflection: class identities, the
    `isAssignableFrom` relation between them, and the exact runtime class of an object. */
module Reflection {
  import opened JsonValues

  /** A class, identified by its fully qualified name. */
  type TypeId = string

  /** The class hierarchy of the running program: for each class, every proper
      supertype it has (superclasses and implemented interfaces, transitively). */
  datatype Hierarchy = Hierarchy(supertypes: map<TypeId, set<TypeId>>)

  /** The supertypes are listed transitively: a supertype's own supertypes are listed too. */
  ghost predicate Closed(h: Hierarchy) {
    forall t, s :: t in h.supertypes && s in h.supertypes[t] && s in h.supertypes ==>
      h.supertypes[s] <= h.supertypes[t]
  }

  /** `target.isAssignableFrom(source)`: source is target or one of its subtypes. */
  predicate IsAssignableFrom(h: Hierarchy, target: TypeId, source: TypeId) {
    target == source || (source in h.supertypes && target in h.supertypes[source])
  }

  /** A Java reference: null, or an object whose exact runtime class is `runtimeClass`
      and whose state is given by its field values. */
  datatype Value =
    | Null
    | Object(runtimeClass: TypeId, fields: map<string, Json>)

  /** In a closed hierarchy `isAssignableFrom` is transitive, as it is in Java. */
  lemma AssignableTransitive(h: Hierarchy, a: TypeId, b: TypeId, c: TypeId)
    requires Closed(h)
    requires IsAssignableFrom(h, a, b) && IsAssignableFrom(h, b, c)
    ensures IsAssignableFrom(h, a, c)
  {
  }
}
