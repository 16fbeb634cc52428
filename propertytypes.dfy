/**
 * The registry of custom property types (PropertyTypes in
 * src/libtiled/propertytype.cpp): counting, lookup by id and by name, and the
 * two-pass load from a list of definition records.
 */
module PropertyRegistry {
  import opened Variant
  import opened PropertyTypeSystem

  ghost function KindIndices(types: seq<PropertyType>, kind: Kind): set<int>
  {
    set i | 0 <= i < |types| && types[i].TypeKind() == kind
  }

  /** The number of registered types of a kind. */
  function CountOfKind(types: seq<PropertyType>, kind: Kind): (n: nat)
    ensures n == |KindIndices(types, kind)|
    ensures n <= |types|
  {
    if types == [] then 0
    else
      var m := |types| - 1;
      var before := CountOfKind(types[..m], kind);
      assert KindIndices(types, kind) ==
        KindIndices(types[..m], kind) + (if types[m].TypeKind() == kind then {m} else {});
      before + (if types[m].TypeKind() == kind then 1 else 0)
  }

  /** Every registered type is an enum or a class. */
  lemma {:induction false} CountsPartition(types: seq<PropertyType>)
    ensures CountOfKind(types, Invalid) == 0
    ensures CountOfKind(types, Enum) + CountOfKind(types, Class) == |types|
  {
    if types != [] {
      CountsPartition(types[..|types| - 1]);
    }
  }

  /** The factory's result for every record of a list. */
  function Attempts(list: seq<Value>): (r: seq<Option<PropertyType>>)
  {
    seq(|list|, i requires 0 <= i < |list| => Parsed(ToMap(list[i])))
  }

  /** The present results, in order. */
  function Somes<T>(s: seq<Option<T>>): seq<T>
  {
    if s == [] then []
    else
      var m := |s| - 1;
      Somes(s[..m]) + (if s[m].Some? then [s[m].value] else [])
  }

  /** The id counter after the factory has produced each of the results. */
  function NextIdAfter(s: seq<Option<PropertyType>>, nextId: int): int
  {
    if s == [] then nextId
    else
      var m := |s| - 1;
      var before := NextIdAfter(s[..m], nextId);
      if s[m].Some? then Max(before, s[m].value.id) else before
  }

  /** The types the factory accepts from a list of records, in list order. */
  function ParsedAll(list: seq<Value>): seq<PropertyType>
  {
    Somes(Attempts(list))
  }

  /** At most one result per attempt, and one for each when none fails. */
  lemma {:induction false} SomesFacts<T>(s: seq<Option<T>>)
    ensures |Somes(s)| <= |s|
    ensures (forall i :: 0 <= i < |s| ==> s[i].Some?) ==>
      |Somes(s)| == |s| && forall i :: 0 <= i < |s| ==> Somes(s)[i] == s[i].value
  {
    if s != [] {
      var m := |s| - 1;
      SomesFacts(s[..m]);
    }
  }

  /** Loading keeps at most one type per record, and one for each when every record has a valid kind. */
  lemma ParsedAllAccepted(list: seq<Value>)
    ensures |ParsedAll(list)| <= |list|
    ensures (forall i :: 0 <= i < |list| ==> Parsed(ToMap(list[i])).Some?) ==>
      |ParsedAll(list)| == |list| &&
      forall i :: 0 <= i < |list| ==> ParsedAll(list)[i] == Parsed(ToMap(list[i])).value
  {
    SomesFacts(Attempts(list));
  }

  /** The counter ends at or above the old counter and every produced id. */
  lemma {:induction false} NextIdBounds(s: seq<Option<PropertyType>>, nextId: int)
    ensures NextIdAfter(s, nextId) >= nextId
    ensures forall k :: 0 <= k < |Somes(s)| ==> Somes(s)[k].id <= NextIdAfter(s, nextId)
  {
    if s != [] {
      var m := |s| - 1;
      NextIdBounds(s[..m], nextId);
    }
  }

  /** PropertyTypes: the registered custom types, in insertion order. */
  class PropertyTypes {
    var types: seq<PropertyType>

    constructor ()
      ensures types == []
    {
      types := [];
    }

    /** PropertyTypes::count. */
    function Count(kind: Kind): (n: nat)
      reads this
      ensures n == |KindIndices(types, kind)|
    {
      CountOfKind(types, kind)
    }

    /** PropertyTypes::findTypeById: the first type with the id, or nothing. */
    function FindTypeById(id: int): (r: Option<PropertyType>)
      reads this
      ensures r.None? <==> forall j :: 0 <= j < |types| ==> types[j].id != id
      ensures r.Some? ==> exists i :: (0 <= i < |types| && types[i] == r.value &&
        r.value.id == id && forall j :: 0 <= j < i ==> types[j].id != id)
    {
      PropertyTypeSystem.FindTypeById(types, id)
    }

    /** PropertyTypes::findTypeByName: the first type with the name, or nothing. */
    function FindTypeByName(name: string): (r: Option<PropertyType>)
      reads this
      ensures r.None? <==> forall j :: 0 <= j < |types| ==> types[j].name != name
      ensures r.Some? ==> exists i :: (0 <= i < |types| && types[i] == r.value &&
        r.value.name == name && forall j :: 0 <= j < i ==> types[j].name != name)
    {
      var i := IndexOfKey(types, ByName(name));
      if i == -1 then None else Some(types[i])
    }

    /**
     * PropertyTypes::loadFrom.  The registry is cleared, every record the
     * factory accepts is added in list order, and then each type is resolved
     * in turn against the registry as it stands at that moment (the types
     * before it already resolved).  The id counter is passed in and returned.
     */
    method LoadFrom(list: seq<Value>, ctx: ExportContext, nextId: int) returns (newNextId: int)
      modifies this
      ensures |types| == |ParsedAll(list)|
      ensures forall k :: 0 <= k < |types| ==>
        types[k] == Resolved(ParsedAll(list)[k], ctx, types[..k] + ParsedAll(list)[k..])
      ensures forall k :: 0 <= k < |types| ==>
        types[k].id == ParsedAll(list)[k].id && types[k].name == ParsedAll(list)[k].name &&
        types[k].TypeKind() == ParsedAll(list)[k].TypeKind()
      ensures newNextId == NextIdAfter(Attempts(list), nextId)
    {
      types := [];
      newNextId := nextId;
      ghost var attempts := Attempts(list);
      for i := 0 to |list|
        invariant types == Somes(attempts[..i])
        invariant newNextId == NextIdAfter(attempts[..i], nextId)
      {
        assert attempts[..i + 1][..i] == attempts[..i];
        var propertyType;
        propertyType, newNextId := CreateFromVariant(ToMap(list[i]), newNextId);
        assert propertyType == attempts[i];
        if propertyType.Some? {
          types := types + [propertyType.value];
        }
      }
      assert attempts[..|list|] == attempts;
      ResolveAll(ctx);
    }

    /**
     * The second pass of loadFrom: resolveDependencies on every type in
     * registry order, each against the registry as it stands at that moment.
     */
    method ResolveAll(ctx: ExportContext)
      modifies this
      ensures |types| == |old(types)|
      ensures forall k :: 0 <= k < |types| ==> types[k] == Resolved(old(types)[k], ctx, types[..k] + old(types)[k..])
      ensures forall k :: 0 <= k < |types| ==>
        types[k].id == old(types)[k].id && types[k].name == old(types)[k].name &&
        types[k].TypeKind() == old(types)[k].TypeKind()
    {
      ghost var parsed := types;
      for k := 0 to |types|
        invariant |types| == |parsed|
        invariant forall j :: 0 <= j < k ==> types[j] == Resolved(parsed[j], ctx, types[..j] + parsed[j..])
        invariant types[k..] == parsed[k..]
      {
        ghost var before := types;
        assert before == before[..k] + parsed[k..];
        var resolved := ResolveDependencies(types[k], ctx, types);
        types := types[k := resolved];
        assert types[..k] == before[..k];
        assert types[k + 1..] == parsed[k + 1..];
      }
      forall k | 0 <= k < |types|
        ensures types[k].id == parsed[k].id && types[k].name == parsed[k].name && types[k].TypeKind() == parsed[k].TypeKind()
      {
        ResolvedKeepsShape(parsed[k], ctx, types[..k] + parsed[k..]);
      }
    }
  }

  /** With distinct ids, looking up a registered type's id finds that type. */
  lemma FindsEveryType(r: PropertyTypes, i: int)
    requires 0 <= i < |r.types|
    requires forall a, b :: 0 <= a < b < |r.types| ==> r.types[a].id != r.types[b].id
    ensures r.FindTypeById(r.types[i].id) == Some(r.types[i])
  {
  }
}
