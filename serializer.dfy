/** The serialization manager: a table of Gson type adapters by the class
    they adapt, and the lookup of an object's class from the "type" tag
    of its JSON form. Classes are named by their binary names. */
module Serialization {
  import opened Wrappers

  /** A parsed JSON tree. Numbers are kept as integers; their value plays
      no part here. An object maps each member name to its value. */
  datatype Json =
    | Null
    | Bool(b: bool)
    | Number(n: int)
    | Str(s: string)
    | Array(items: seq<Json>)
    | Object(members: map<string, Json>)

  predicate IsPrimitive(j: Json)
  {
    j.Bool? || j.Number? || j.Str?
  }

  /** `ClassNotFoundException`, and the `IllegalStateException` from
      `getAsJsonPrimitive` on a value that is not a primitive. */
  datatype TypeError = ClassNotFound | IllegalState

  /** `j` is an object whose "type" member is an object whose "class"
      member is `v`. */
  ghost predicate ClassMember(j: Json, v: Json)
  {
    && j.Object? && "type" in j.members
    && j.members["type"].Object? && "class" in j.members["type"].members
    && j.members["type"].members["class"] == v
  }

  /** `getType(json)` on the parsed tree: the class named by the string
      `type.class`, provided the class can be loaded (`loadable` is the
      set of classes on the class path). A "class" member that is not a
      primitive is an IllegalStateException; every other shape, a
      non-string "class" and an unknown class are ClassNotFoundException. */
  function GetType(j: Json, loadable: set<string>): (r: Result<string, TypeError>)
    ensures r.Ok? <==> exists c :: ClassMember(j, Str(c)) && c in loadable
    ensures r.Ok? ==> ClassMember(j, Str(r.value)) && r.value in loadable
    ensures r == Err(IllegalState) <==> exists v :: ClassMember(j, v) && !IsPrimitive(v)
    ensures forall c :: ClassMember(j, Str(c)) && c !in loadable ==> r == Err(ClassNotFound)
  {
    if j.Object? && "type" in j.members then
      var t := j.members["type"];
      if t.Object? && "class" in t.members then
        var v := t.members["class"];
        if !IsPrimitive(v) then Err(IllegalState)
        else if v.Str? && v.s in loadable then Ok(v.s)
        else Err(ClassNotFound)
      else Err(ClassNotFound)
    else Err(ClassNotFound)
  }

  /** An object's JSON form reduced to its "type" member, which holds the
      object's class as the class adapter writes a class:
      `{"name": simple name, "class": c}`. */
  function TypeTag(simpleName: string, c: string): (r: Json)
    ensures ClassMember(r, Str(c))
  {
    Object(map["type" := Object(map["name" := Str(simpleName), "class" := Str(c)])])
  }

  /** Reading the class back from a tag gives the tagged class, when it
      can be loaded. */
  lemma TypeTagRoundTrip(simpleName: string, c: string, loadable: set<string>)
    ensures GetType(TypeTag(simpleName, c), loadable) == if c in loadable then Ok(c) else Err(ClassNotFound)
  {
  }

  /** Members other than "type" play no part in the lookup. */
  lemma OtherMembersIgnored(members: map<string, Json>, k: string, v: Json, loadable: set<string>)
    requires k != "type"
    ensures GetType(Object(members[k := v]), loadable) == GetType(Object(members), loadable)
  {
    assert "type" in members[k := v] <==> "type" in members;
  }

  const ClassName := "java.lang.Class"
  const WorldName := "org.spongepowered.api.world.World"
  const ClassAdapterName := "com.dracade.ember.core.adapters.ClassAdapter"
  const WorldAdapterName := "com.dracade.ember.core.adapters.WorldAdapter"

  class Serializer {
    /** The adapter registered for each class. */
    var adapters: map<string, string>

    /** A new serializer registers the adapters for `Class` and `World`. */
    constructor ()
      ensures adapters == map[ClassName := ClassAdapterName, WorldName := WorldAdapterName]
    {
      adapters := map[];
      new;
      var _ := Register(ClassName, ClassAdapterName);
      var _ := Register(WorldName, WorldAdapterName);
    }

    /** `register(object, adapter)`: adds the adapter unless one is already
        registered for the class, which is kept; the class has an adapter
        afterwards, so the answer is always `true`. */
    method Register(key: string, adapter: string) returns (r: bool)
      modifies this
      ensures key in old(adapters) ==> adapters == old(adapters)
      ensures key !in old(adapters) ==> adapters == old(adapters)[key := adapter]
      ensures r
    {
      if key !in adapters {
        adapters := adapters[key := adapter];
      }
      r := key in adapters;
    }

    /** `unregister(object)`: the guard removes the class only when it is
        absent, so nothing is ever removed; the answer is whether the class
        has an adapter. */
    method Unregister(key: string) returns (r: bool)
      modifies this
      ensures adapters == old(adapters)
      ensures r <==> key in old(adapters)
    {
      if key !in adapters {
        adapters := adapters - {key};
      }
      r := key in adapters;
    }
  }

  /** The static `instance` field. */
  class Holder {
    var instance: Serializer?

    constructor ()
      ensures instance == null
    {
      instance := null;
    }

    /** `Serializer.instance()`: built on the first call, the same object
        on every later one. */
    method Instance() returns (r: Serializer)
      modifies this
      ensures old(instance) != null ==> r == old(instance) && instance == old(instance)
      ensures old(instance) == null ==> fresh(r) && instance == r
      ensures old(instance) == null ==> r.adapters == map[ClassName := ClassAdapterName, WorldName := WorldAdapterName]
    {
      if instance == null {
        instance := new Serializer();
      }
      r := instance;
    }
  }
}
