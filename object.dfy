/**
 * Objects that carry custom properties and components (src/libtiled/object.cpp):
 * property inheritance from the template object, the tile and the object
 * type, and the per-object component map.
 *
 * Object, MapObject and Tile become one class whose `role` says which of
 * them it is; a map object's template object and tile are references to other
 * objects.  The registered object types (the static Object::mObjectTypes) are
 * passed in.  Properties maps are QMaps, that is, `Entries<Value>` with unique
 * keys.
 */
module TiledObject {
  import opened Variant

  type Properties = Entries<Value>

  /** An ObjectType: a named set of default property values. */
  datatype ObjectType = ObjectType(name: string, defaultProperties: Properties)

  class Object {
    var properties: Properties
    var components: Entries<Properties>
    var role: Role

    constructor (role: Role)
      ensures this.role == role && properties == [] && components == []
    {
      this.role := role;
      properties := [];
      components := [];
    }

    /** The objects this one inherits from. */
    ghost function Linked(): set<Object>
      reads this
    {
      match role
      case MapObjectRole(_, templateObject, tile) =>
        (if templateObject != null then {templateObject} else {}) + (if tile != null then {tile} else {})
      case _ => {}
    }

    /** Object::hasProperty. */
    predicate HasProperty(name: string)
      reads this
    {
      name in Keys(properties)
    }

    /** The type of a map object or tile, as stored on it. */
    function OwnType(): string
      reads this
    {
      match role
      case MapObjectRole(objectType, _, _) => objectType
      case TileRole(tileType) => tileType
      case OtherRole => ""
    }

    /** The object type whose defaults apply: a map object falls back to its tile's type. */
    function EffectiveType(): string
      reads this, Linked()
    {
      match role
      case MapObjectRole(objectType, _, tile) =>
        if objectType == "" && tile != null then tile.OwnType() else objectType
      case TileRole(tileType) => tileType
      case OtherRole => ""
    }

    /**
     * Object::resolvedProperty: own property, else (map objects) the template
     * object's, else the tile's, else the default of the first object type of
     * the effective type name that has it; the invalid value (Null) when none
     * has it, and always for an object that is neither map object nor tile.
     */
    function ResolvedProperty(name: string, objectTypes: seq<ObjectType>): (r: Value)
      reads this, Linked()
      ensures HasProperty(name) ==> r == Get(properties, name)
      ensures !HasProperty(name) && role.OtherRole? ==> r == Null
    {
      if HasProperty(name) then Get(properties, name)
      else match role
        case OtherRole => Null
        case TileRole(tileType) => TypeDefault(objectTypes, tileType, name)
        case MapObjectRole(_, templateObject, tile) =>
          if templateObject != null && templateObject.HasProperty(name) then Get(templateObject.properties, name)
          else if tile != null && tile.HasProperty(name) then Get(tile.properties, name)
          else TypeDefault(objectTypes, EffectiveType(), name)
    }

    /**
     * The map Object::resolvedProperties builds: the defaults of every object
     * type of the effective type name in registration order, then (map
     * objects) the tile's and the template object's properties, then the
     * object's own, each layer overriding the previous ones.
     */
    function MergedProperties(objectTypes: seq<ObjectType>): Properties
      reads this, Linked()
    {
      LayeredOver(TypeDefaults(objectTypes, EffectiveType()))
    }

    /**
     * The map resolvedProperties is meant to build: as MergedProperties, but
     * with the defaults of the object types merged so that the first type of
     * the name wins, as in resolvedProperty.
     */
    function FirstWinsMergedProperties(objectTypes: seq<ObjectType>): Properties
      reads this, Linked()
    {
      LayeredOver(FirstWinsDefaults(objectTypes, EffectiveType()))
    }

    /** The tile's, the template object's and the own properties, merged over the defaults. */
    function LayeredOver(defaults: Properties): Properties
      reads this, Linked()
    {
      var all := match role
        case MapObjectRole(_, templateObject, tile) =>
          var all := if tile != null then Merge(defaults, tile.properties) else defaults;
          if templateObject != null then Merge(all, templateObject.properties) else all
        case _ => defaults;
      Merge(all, properties)
    }

    /** Object::resolvedProperties, as written. */
    method ResolvedProperties(objectTypes: seq<ObjectType>) returns (allProperties: Properties)
      ensures allProperties == MergedProperties(objectTypes)
    {
      allProperties := [];
      var objectType := EffectiveType();
      if objectType != "" {
        for i := 0 to |objectTypes|
          invariant allProperties == TypeDefaults(objectTypes[..i], objectType)
        {
          assert objectTypes[..i + 1][..i] == objectTypes[..i];
          if objectTypes[i].name == objectType {
            allProperties := Merge(allProperties, objectTypes[i].defaultProperties);
          }
        }
        assert objectTypes[..|objectTypes|] == objectTypes;
      }
      allProperties := MergeInherited(allProperties);
    }

    /**
     * Object::resolvedProperties with the object types visited from the last
     * to the first, so that the first type of the name is merged last and wins.
     */
    method ResolvedPropertiesFirstWins(objectTypes: seq<ObjectType>) returns (allProperties: Properties)
      ensures allProperties == FirstWinsMergedProperties(objectTypes)
    {
      allProperties := [];
      var objectType := EffectiveType();
      if objectType != "" {
        var i := |objectTypes|;
        while i > 0
          invariant 0 <= i <= |objectTypes|
          invariant allProperties == FirstWinsDefaults(objectTypes[i..], objectType)
        {
          i := i - 1;
          assert objectTypes[i..][1..] == objectTypes[i + 1..];
          if objectTypes[i].name == objectType {
            allProperties := Merge(allProperties, objectTypes[i].defaultProperties);
          }
        }
        assert objectTypes[0..] == objectTypes;
      }
      allProperties := MergeInherited(allProperties);
    }

    /** The merges of resolvedProperties after the object type defaults. */
    method MergeInherited(defaults: Properties) returns (allProperties: Properties)
      ensures allProperties == LayeredOver(defaults)
    {
      allProperties := defaults;
      if role.MapObjectRole? {
        if role.tile != null {
          allProperties := Merge(allProperties, role.tile.properties);
        }
        if role.templateObject != null {
          allProperties := Merge(allProperties, role.templateObject.properties);
        }
      }
      allProperties := Merge(allProperties, properties);
    }

    /** Object::addComponent: the entry for the name is replaced as a whole. */
    method AddComponent(name: string, props: Properties)
      modifies this
      ensures components == Insert(old(components), name, props)
      ensures properties == old(properties) && role == old(role)
    {
      components := Insert(components, name, props);
    }

    /** Object::setComponentProperty. */
    method SetComponentProperty(componentName: string, propertyName: string, value: Value)
      modifies this
      ensures components == WithComponentProperty(old(components), componentName, propertyName, value)
      ensures properties == old(properties) && role == old(role)
    {
      if componentName in Keys(components) {
        var props := Lookup(components, componentName).value;
        components := Insert(components, componentName, Insert(props, propertyName, value));
      }
    }

    /** Object::mergeComponents. */
    method MergeComponents(given: Entries<Properties>)
      modifies this
      ensures components == MergedComponents(old(components), given)
      ensures properties == old(properties) && role == old(role)
    {
      for i := 0 to |given|
        invariant components == MergedComponents(old(components), given[..i])
        invariant properties == old(properties) && role == old(role)
      {
        assert given[..i + 1][..i] == given[..i];
        var name := given[i].0;
        components := Insert(components, name, Merge(LookupOr(components, name, []), given[i].1));
      }
      assert given[..|given|] == given;
    }
  }

  /**
   * What an object is: a map object (with its type name, template object and
   * tile, each possibly absent), a tile (with its type), or anything else.
   */
  datatype Role =
    | MapObjectRole(objectType: string, templateObject: Object?, tile: Object?)
    | TileRole(tileType: string)
    | OtherRole

  function LookupOr<V>(m: Entries<V>, k: string, default: V): V
  {
    match Lookup(m, k)
    case Some(v) => v
    case None => default
  }

  ghost predicate UniqueKeys<V>(m: Entries<V>)
  {
    forall i, j :: 0 <= i < j < |m| ==> m[i].0 != m[j].0
  }

  /**
   * mergeProperties (its definition is not part of this model): every entry
   * of the source is inserted into the target, in the source's order.
   */
  function Merge(target: Properties, source: Properties): Properties
  {
    if source == [] then target
    else
      var m := |source| - 1;
      Insert(Merge(target, source[..m]), source[m].0, source[m].1)
  }

  /** A merged entry comes from the source when the source has the key, else from the target. */
  lemma {:induction false} MergeLookup(target: Properties, source: Properties, k: string)
    requires UniqueKeys(source)
    ensures Lookup(Merge(target, source), k) == if k in Keys(source) then Lookup(source, k) else Lookup(target, k)
  {
    if source != [] {
      var m := |source| - 1;
      var init, last := source[..m], source[m];
      assert source == init + [last];
      assert UniqueKeys(init) by {
        forall i, j | 0 <= i < j < |init| ensures init[i].0 != init[j].0 {
          assert init[i] == source[i] && init[j] == source[j];
        }
      }
      assert last.0 !in Keys(init) by {
        forall i | 0 <= i < |init| ensures Keys(init)[i] != last.0 {
          assert init[i] == source[i];
        }
      }
      var merged := Merge(target, init);
      assert Lookup(merged, k) == if k in Keys(init) then Lookup(init, k) else Lookup(target, k) by {
        MergeLookup(target, init, k);
      }
      assert k in Keys(source) <==> k in Keys(init) || k == last.0 by {
        KeysSnoc(init, last);
      }
      assert Lookup(source, k) == if k in Keys(init) then Lookup(init, k) else if k == last.0 then Some(last.1) else None by {
        LookupSnoc(init, last, k);
      }
    }
  }

  lemma KeysSnoc<V>(m: Entries<V>, e: (string, V))
    ensures Keys(m + [e]) == Keys(m) + [e.0]
  {
  }

  /** Looking up in m extended by one entry: m's entry wins, else the new one. */
  lemma {:induction false} LookupSnoc<V>(m: Entries<V>, e: (string, V), k: string)
    ensures Lookup(m + [e], k) == if k in Keys(m) then Lookup(m, k) else if k == e.0 then Some(e.1) else None
  {
    if m != [] {
      assert (m + [e])[1..] == m[1..] + [e];
      assert Keys(m) == [m[0].0] + Keys(m[1..]);
      LookupSnoc(m[1..], e, k);
    } else {
      assert m + [e] == [e];
    }
  }

  /** The first object type with this name that has the property (Null if none). */
  function TypeDefault(objectTypes: seq<ObjectType>, typeName: string, name: string): Value
  {
    if typeName == "" || objectTypes == [] then Null
    else if objectTypes[0].name == typeName && name in Keys(objectTypes[0].defaultProperties) then
      Get(objectTypes[0].defaultProperties, name)
    else TypeDefault(objectTypes[1..], typeName, name)
  }

  /** The defaults of every object type with this name, merged in order. */
  function TypeDefaults(objectTypes: seq<ObjectType>, typeName: string): Properties
  {
    if typeName == "" || objectTypes == [] then []
    else
      var m := |objectTypes| - 1;
      var before := TypeDefaults(objectTypes[..m], typeName);
      if objectTypes[m].name == typeName then Merge(before, objectTypes[m].defaultProperties) else before
  }

  /** The defaults of every object type with this name, merged so that the first such type wins. */
  function FirstWinsDefaults(objectTypes: seq<ObjectType>, typeName: string): Properties
  {
    if typeName == "" || objectTypes == [] then []
    else
      var rest := FirstWinsDefaults(objectTypes[1..], typeName);
      if objectTypes[0].name == typeName then Merge(rest, objectTypes[0].defaultProperties) else rest
  }

  /** The first-wins merge answers like the first-match search, whatever the type names. */
  lemma {:induction false} FirstWinsDefaultsAgree(objectTypes: seq<ObjectType>, typeName: string, name: string)
    requires ValidDefaults(objectTypes)
    ensures Get(FirstWinsDefaults(objectTypes, typeName), name) == TypeDefault(objectTypes, typeName, name)
  {
    if typeName != "" && objectTypes != [] {
      var tail := objectTypes[1..];
      assert ValidDefaults(tail) by {
        assert forall i :: 0 <= i < |tail| ==> tail[i] == objectTypes[i + 1];
      }
      FirstWinsDefaultsAgree(tail, typeName, name);
      if objectTypes[0].name == typeName {
        assert UniqueKeys(objectTypes[0].defaultProperties);
        MergeLookup(FirstWinsDefaults(tail, typeName), objectTypes[0].defaultProperties, name);
      }
    }
  }

  ghost predicate DistinctTypeNames(objectTypes: seq<ObjectType>)
  {
    forall i, j :: 0 <= i < j < |objectTypes| ==> objectTypes[i].name != objectTypes[j].name
  }

  ghost predicate ValidDefaults(objectTypes: seq<ObjectType>)
  {
    forall i :: 0 <= i < |objectTypes| ==> UniqueKeys(objectTypes[i].defaultProperties)
  }

  /** With distinct type names, the merged defaults answer like the first-match search. */
  lemma {:induction false} TypeDefaultsAgree(objectTypes: seq<ObjectType>, typeName: string, name: string)
    requires DistinctTypeNames(objectTypes) && ValidDefaults(objectTypes)
    ensures Get(TypeDefaults(objectTypes, typeName), name) == TypeDefault(objectTypes, typeName, name)
  {
    if typeName != "" && objectTypes != [] {
      var m := |objectTypes| - 1;
      var init := objectTypes[..m];
      assert DistinctTypeNames(init) && ValidDefaults(init) by {
        assert forall i :: 0 <= i < m ==> init[i] == objectTypes[i];
      }
      TypeDefaultsAgree(init, typeName, name);
      TypeDefaultTail(objectTypes, typeName, name);
      if objectTypes[m].name == typeName {
        MergeLookup(TypeDefaults(init, typeName), objectTypes[m].defaultProperties, name);
        NoEarlierType(init, typeName, name);
      } else if forall i :: 0 <= i < m ==> !DefinesDefault(init[i], typeName, name) {
        NoDefaultDefined(init, typeName, name);
      } else {
        var i :| 0 <= i < m && DefinesDefault(init[i], typeName, name);
        assert objectTypes[i] == init[i];
      }
    }
  }

  /** Whether an object type with this name defines the property. */
  predicate DefinesDefault(t: ObjectType, typeName: string, name: string)
  {
    t.name == typeName && name in Keys(t.defaultProperties)
  }

  /** The first-match search over a list extended by one type. */
  lemma {:induction false} TypeDefaultTail(objectTypes: seq<ObjectType>, typeName: string, name: string)
    requires typeName != "" && objectTypes != []
    ensures var m := |objectTypes| - 1;
      TypeDefault(objectTypes, typeName, name) ==
        if exists i :: 0 <= i < m && DefinesDefault(objectTypes[i], typeName, name)
        then TypeDefault(objectTypes[..m], typeName, name)
        else if DefinesDefault(objectTypes[m], typeName, name) then Get(objectTypes[m].defaultProperties, name)
        else Null
  {
    var m := |objectTypes| - 1;
    if m > 0 {
      var first, tail, init := objectTypes[0], objectTypes[1..], objectTypes[..m];
      assert tail[..m - 1] == init[1..] && init[0] == first && tail[m - 1] == objectTypes[m];
      TypeDefaultTail(tail, typeName, name);
      assert (exists i :: 0 <= i < m && DefinesDefault(objectTypes[i], typeName, name)) <==>
        DefinesDefault(first, typeName, name) || exists i :: 0 <= i < m - 1 && DefinesDefault(tail[i], typeName, name)
      by {
        if exists i :: 0 <= i < m - 1 && DefinesDefault(tail[i], typeName, name) {
          var i :| 0 <= i < m - 1 && DefinesDefault(tail[i], typeName, name);
          assert objectTypes[i + 1] == tail[i];
        }
        if exists i :: 0 <= i < m && DefinesDefault(objectTypes[i], typeName, name) {
          var i :| 0 <= i < m && DefinesDefault(objectTypes[i], typeName, name);
          if i > 0 {
            assert tail[i - 1] == objectTypes[i];
          }
        }
      }
    }
  }

  /** Without a type of that name defining the property, the search finds nothing. */
  lemma {:induction false} NoDefaultDefined(objectTypes: seq<ObjectType>, typeName: string, name: string)
    requires forall i :: 0 <= i < |objectTypes| ==> !DefinesDefault(objectTypes[i], typeName, name)
    ensures TypeDefault(objectTypes, typeName, name) == Null
  {
    if objectTypes != [] {
      assert forall i :: 0 <= i < |objectTypes| - 1 ==> objectTypes[1..][i] == objectTypes[i + 1];
      NoDefaultDefined(objectTypes[1..], typeName, name);
    }
  }

  /** No type with the name before position |objectTypes| means no match there. */
  lemma {:induction false} NoEarlierType(objectTypes: seq<ObjectType>, typeName: string, name: string)
    requires forall i :: 0 <= i < |objectTypes| ==> objectTypes[i].name != typeName
    ensures TypeDefault(objectTypes, typeName, name) == Null
    ensures TypeDefaults(objectTypes, typeName) == []
  {
    if objectTypes != [] {
      NoEarlierType(objectTypes[1..], typeName, name);
      NoEarlierType(objectTypes[..|objectTypes| - 1], typeName, name);
    }
  }

  ghost predicate ValidObject(o: Object)
    reads o
  {
    UniqueKeys(o.properties)
  }

  /**
   * resolvedProperties keeps the precedence of resolvedProperty: with
   * distinct object type names and QMap-shaped property maps, every key of
   * the merged map holds what resolvedProperty returns.
   */
  lemma ResolvedPropertiesAgree(o: Object, objectTypes: seq<ObjectType>, name: string)
    requires DistinctTypeNames(objectTypes) && ValidDefaults(objectTypes)
    requires ValidObject(o) && forall l :: l in o.Linked() ==> ValidObject(l)
    ensures Get(o.MergedProperties(objectTypes), name) == o.ResolvedProperty(name, objectTypes)
  {
    var defaults := TypeDefaults(objectTypes, o.EffectiveType());
    TypeDefaultsAgree(objectTypes, o.EffectiveType(), name);
    if o.role.MapObjectRole? {
      InheritedAgree(o, defaults, TypeDefault(objectTypes, o.EffectiveType(), name), name);
    } else {
      MergeLookup(defaults, o.properties, name);
    }
  }

  /**
   * The corrected resolvedProperties keeps the precedence of
   * resolvedProperty for every list of object types, duplicate names included.
   */
  lemma ResolvedPropertiesFirstWinsAgree(o: Object, objectTypes: seq<ObjectType>, name: string)
    requires ValidDefaults(objectTypes)
    requires ValidObject(o) && forall l :: l in o.Linked() ==> ValidObject(l)
    ensures Get(o.FirstWinsMergedProperties(objectTypes), name) == o.ResolvedProperty(name, objectTypes)
  {
    var defaults := FirstWinsDefaults(objectTypes, o.EffectiveType());
    FirstWinsDefaultsAgree(objectTypes, o.EffectiveType(), name);
    if o.role.MapObjectRole? {
      InheritedAgree(o, defaults, TypeDefault(objectTypes, o.EffectiveType(), name), name);
    } else {
      MergeLookup(defaults, o.properties, name);
    }
  }

  /** The map-object layers: template over tile over the type defaults. */
  lemma InheritedAgree(o: Object, defaults: Properties, typeDefault: Value, name: string)
    requires o.role.MapObjectRole? && Get(defaults, name) == typeDefault
    requires ValidObject(o) && forall l :: l in o.Linked() ==> ValidObject(l)
    ensures var templateObject, tile := o.role.templateObject, o.role.tile;
      var a1 := if tile != null then Merge(defaults, tile.properties) else defaults;
      var a2 := if templateObject != null then Merge(a1, templateObject.properties) else a1;
      Get(Merge(a2, o.properties), name) ==
        if o.HasProperty(name) then Get(o.properties, name)
        else if templateObject != null && templateObject.HasProperty(name) then Get(templateObject.properties, name)
        else if tile != null && tile.HasProperty(name) then Get(tile.properties, name)
        else typeDefault
  {
    var templateObject, tile := o.role.templateObject, o.role.tile;
    var a1 := if tile != null then Merge(defaults, tile.properties) else defaults;
    if tile != null {
      assert tile in o.Linked();
      MergeLookup(defaults, tile.properties, name);
    }
    var a2 := if templateObject != null then Merge(a1, templateObject.properties) else a1;
    if templateObject != null {
      assert templateObject in o.Linked();
      MergeLookup(a1, templateObject.properties, name);
    }
    MergeLookup(a2, o.properties, name);
  }

  /**
   * With two object types of the same name, resolvedProperty takes the first
   * one's default and resolvedProperties the last one's: the precedence the
   * comment in resolvedProperties promises holds only for distinct names.
   * The corrected, first-wins merge agrees with resolvedProperty again.
   */
  lemma DuplicateTypeNamesDisagree(o: Object)
    requires o.role == TileRole("T") && o.properties == []
    ensures var objectTypes := [ObjectType("T", [("a", Int(1))]), ObjectType("T", [("a", Int(2))])];
      o.ResolvedProperty("a", objectTypes) == Int(1) && Get(o.MergedProperties(objectTypes), "a") == Int(2) &&
      Get(o.FirstWinsMergedProperties(objectTypes), "a") == Int(1)
  {
    var second: Properties := [("a", Int(2))];
    var objectTypes := [ObjectType("T", [("a", Int(1))]), ObjectType("T", second)];
    assert Keys([("a", Int(1))]) == ["a"];
    assert Keys(second) == ["a"];
    var defaults := TypeDefaults(objectTypes, "T");
    assert defaults == Merge(TypeDefaults(objectTypes[..1], "T"), second);
    MergeLookup(TypeDefaults(objectTypes[..1], "T"), second, "a");
    assert o.MergedProperties(objectTypes) == Merge(defaults, []);
    ResolvedPropertiesFirstWinsAgree(o, objectTypes, "a");
  }

  /** The component map after setComponentProperty. */
  function WithComponentProperty(components: Entries<Properties>, componentName: string, propertyName: string, value: Value): (r: Entries<Properties>)
    ensures componentName !in Keys(components) ==> r == components
    ensures componentName in Keys(components) ==>
      Lookup(r, componentName) == Some(Insert(Lookup(components, componentName).value, propertyName, value))
    ensures forall c :: c != componentName ==> Lookup(r, c) == Lookup(components, c)
    ensures Keys(r) == Keys(components) || componentName in Keys(components)
  {
    if componentName in Keys(components) then
      Insert(components, componentName, Insert(Lookup(components, componentName).value, propertyName, value))
    else components
  }

  /** The component map after mergeComponents: each given component merged into the existing one, or added. */
  function MergedComponents(components: Entries<Properties>, given: Entries<Properties>): Entries<Properties>
  {
    if given == [] then components
    else
      var m := |given| - 1;
      var before := MergedComponents(components, given[..m]);
      Insert(before, given[m].0, Merge(LookupOr(before, given[m].0, []), given[m].1))
  }

  /**
   * mergeComponents keeps every existing component and adds the given ones
   * (MergedComponentsKeys), leaves a component that is not given exactly as
   * it was (MergedComponentsKeep), and merges every given component over the
   * existing one (GivenComponentMerged, MergedComponentProperty).
   */
  lemma {:induction false} MergedComponentsKeys(components: Entries<Properties>, given: Entries<Properties>, c: string)
    ensures c in Keys(MergedComponents(components, given)) <==> c in Keys(components) || c in Keys(given)
  {
    if given != [] {
      var m := |given| - 1;
      var init, last := given[..m], given[m];
      MergedComponentsKeys(components, init, c);
      assert c in Keys(given) <==> c in Keys(init) || c == last.0 by {
        assert given == init + [last];
        KeysSnoc(init, last);
      }
    }
  }

  lemma {:induction false} MergedComponentsKeep(components: Entries<Properties>, given: Entries<Properties>, c: string)
    requires c !in Keys(given)
    ensures Lookup(MergedComponents(components, given), c) == Lookup(components, c)
  {
    if given != [] {
      var m := |given| - 1;
      var init, last := given[..m], given[m];
      assert c !in Keys(init) && c != last.0 by {
        assert given == init + [last];
        KeysSnoc(init, last);
      }
      MergedComponentsKeep(components, init, c);
    }
  }

  /** A property of the last given copy of a component is set to the given value. */
  lemma GivenPropertyWins(components: Entries<Properties>, given: Entries<Properties>, p: string)
    requires given != [] && UniqueKeys(given[|given| - 1].1)
    requires p in Keys(given[|given| - 1].1)
    ensures Lookup(LookupOr(MergedComponents(components, given), given[|given| - 1].0, []), p) ==
      Lookup(given[|given| - 1].1, p)
  {
    var m := |given| - 1;
    var before := MergedComponents(components, given[..m]);
    MergeLookup(LookupOr(before, given[m].0, []), given[m].1, p);
  }

  /**
   * Every given component ends up as its old properties (none when it was
   * absent) with the given ones merged over them.
   */
  lemma {:induction false} GivenComponentMerged(components: Entries<Properties>, given: Entries<Properties>, c: string)
    requires UniqueKeys(given) && c in Keys(given)
    ensures Lookup(given, c).Some?
    ensures Lookup(MergedComponents(components, given), c) ==
      Some(Merge(LookupOr(components, c, []), Lookup(given, c).value))
  {
    var m := |given| - 1;
    var init, last := given[..m], given[m];
    assert given == init + [last];
    KeysSnoc(init, last);
    LookupSnoc(init, last, c);
    var before := MergedComponents(components, init);
    if last.0 == c {
      assert c !in Keys(init);
      MergedComponentsKeep(components, init, c);
    } else {
      assert UniqueKeys(init) by {
        assert forall i :: 0 <= i < m ==> init[i] == given[i];
      }
      GivenComponentMerged(components, init, c);
    }
  }

  /**
   * In a given component, a property takes the given value when the given
   * copy has it and otherwise keeps the component's old value.
   */
  lemma MergedComponentProperty(components: Entries<Properties>, given: Entries<Properties>, c: string, p: string)
    requires UniqueKeys(given) && c in Keys(given)
    requires Lookup(given, c).Some? && UniqueKeys(Lookup(given, c).value)
    ensures Lookup(LookupOr(MergedComponents(components, given), c, []), p) ==
      if p in Keys(Lookup(given, c).value) then Lookup(Lookup(given, c).value, p)
      else Lookup(LookupOr(components, c, []), p)
  {
    GivenComponentMerged(components, given, c);
    MergeLookup(LookupOr(components, c, []), Lookup(given, c).value, p);
  }

  /** Object::objectTypeProperties: the defaults of the first object type with the name, else empty. */
  function ObjectTypeProperties(objectTypes: seq<ObjectType>, name: string): (r: Properties)
    ensures (exists i :: 0 <= i < |objectTypes| && objectTypes[i].name == name &&
               (forall j :: 0 <= j < i ==> objectTypes[j].name != name) && r == objectTypes[i].defaultProperties)
         || ((forall i :: 0 <= i < |objectTypes| ==> objectTypes[i].name != name) && r == [])
  {
    if objectTypes == [] then []
    else if objectTypes[0].name == name then objectTypes[0].defaultProperties
    else
      var r := ObjectTypeProperties(objectTypes[1..], name);
      assert forall i :: 0 < i < |objectTypes| ==> objectTypes[i] == objectTypes[1..][i - 1];
      if (forall i :: 0 <= i < |objectTypes[1..]| ==> objectTypes[1..][i].name != name) then r
      else
        var i :| 0 <= i < |objectTypes[1..]| && objectTypes[1..][i].name == name &&
          (forall j :: 0 <= j < i ==> objectTypes[1..][j].name != name) && r == objectTypes[1..][i].defaultProperties;
        assert objectTypes[i + 1].name == name && forall j :: 0 <= j < i + 1 ==> objectTypes[j].name != name;
        r
  }

  // ---------------------------------------------------------------------
  // commonComponents

  /** The number of objects that have a component of this name. */
  function Occurrences(objects: seq<Object>, c: string): (n: nat)
    reads set o | o in objects
    ensures n <= |objects|
    ensures n == |objects| <==> forall i :: 0 <= i < |objects| ==> c in Keys(objects[i].components)
    ensures n == 0 <==> forall i :: 0 <= i < |objects| ==> c !in Keys(objects[i].components)
  {
    if objects == [] then 0
    else
      var m := |objects| - 1;
      assert forall i :: 0 <= i < m ==> objects[..m][i] == objects[i];
      Occurrences(objects[..m], c) + (if c in Keys(objects[m].components) then 1 else 0)
  }

  function TypeNames(objectTypes: seq<ObjectType>): set<string>
  {
    set i | 0 <= i < |objectTypes| :: objectTypes[i].name
  }

  /**
   * Object::commonComponents: with `inverted` false, the component names
   * every object has; with `inverted` true, the object type names no object
   * has as a component; nothing for an empty list.
   */
  method CommonComponents(objects: seq<Object>, inverted: bool, objectTypes: seq<ObjectType>) returns (componentNames: set<string>)
    requires forall i :: 0 <= i < |objects| ==> UniqueKeys(objects[i].components)
    ensures objects == [] ==> componentNames == {}
    ensures objects != [] && !inverted ==>
      forall c :: c in componentNames <==> forall i :: 0 <= i < |objects| ==> c in Keys(objects[i].components)
    ensures objects != [] && inverted ==>
      forall c :: c in componentNames <==>
        c in TypeNames(objectTypes) && forall i :: 0 <= i < |objects| ==> c !in Keys(objects[i].components)
  {
    componentNames := {};
    if objects == [] {
      return;
    }

    var countMap := CountAll(objects, objectTypes);
    var target := if inverted then 0 else |objects|;
    componentNames := KeysWithCount(countMap, target);
    if !inverted {
      forall c | forall i :: 0 <= i < |objects| ==> c in Keys(objects[i].components)
        ensures c in componentNames
      {
        assert c in Keys(objects[0].components);
      }
    }
  }

  /** The first two loops of commonComponents: each name's count is its number of objects. */
  method CountAll(objects: seq<Object>, objectTypes: seq<ObjectType>) returns (countMap: map<string, int>)
    requires forall i :: 0 <= i < |objects| ==> UniqueKeys(objects[i].components)
    ensures forall c :: c in countMap <==> c in TypeNames(objectTypes) || Occurrences(objects, c) > 0
    ensures forall c :: c in countMap ==> countMap[c] == Occurrences(objects, c)
  {
    countMap := SeedCounts(objectTypes);
    for i := 0 to |objects|
      invariant forall c :: c in countMap <==> c in TypeNames(objectTypes) || Occurrences(objects[..i], c) > 0
      invariant forall c :: c in countMap ==> countMap[c] == Occurrences(objects[..i], c)
    {
      OccurrencesStep(objects, i);
      countMap := CountComponents(countMap, objects[i].components);
    }
    assert objects[..|objects|] == objects;
  }

  lemma OccurrencesStep(objects: seq<Object>, i: nat)
    requires i < |objects|
    ensures forall c :: (Occurrences(objects[..i + 1], c) ==
      Occurrences(objects[..i], c) + (if c in Keys(objects[i].components) then 1 else 0))
  {
    assert objects[..i + 1][..i] == objects[..i];
  }

  /** The first loop of commonComponents: every object type name counted 0. */
  method SeedCounts(objectTypes: seq<ObjectType>) returns (countMap: map<string, int>)
    ensures countMap.Keys == TypeNames(objectTypes)
    ensures forall c :: c in countMap ==> countMap[c] == 0
  {
    countMap := map[];
    for i := 0 to |objectTypes|
      invariant countMap.Keys == TypeNames(objectTypes[..i])
      invariant forall c :: c in countMap ==> countMap[c] == 0
    {
      assert TypeNames(objectTypes[..i + 1]) == TypeNames(objectTypes[..i]) + {objectTypes[i].name} by {
        assert forall j :: 0 <= j < i ==> objectTypes[..i + 1][j] == objectTypes[..i][j];
      }
      countMap := countMap[objectTypes[i].name := 0];
    }
    assert objectTypes[..|objectTypes|] == objectTypes;
  }

  /** One object of commonComponents: `++countMap[key]` for each of its component names. */
  method CountComponents(countMap: map<string, int>, comps: Entries<Properties>) returns (r: map<string, int>)
    requires UniqueKeys(comps)
    ensures forall c :: c in r <==> c in countMap || c in Keys(comps)
    ensures forall c :: c in r ==> r[c] == (if c in countMap then countMap[c] else 0) + (if c in Keys(comps) then 1 else 0)
  {
    r := countMap;
    for j := 0 to |comps|
      invariant forall c :: c in r <==> c in countMap || c in Keys(comps[..j])
      invariant forall c :: c in r ==>
        r[c] == (if c in countMap then countMap[c] else 0) + (if c in Keys(comps[..j]) then 1 else 0)
    {
      KeysSnoc(comps[..j], comps[j]);
      assert comps[..j + 1] == comps[..j] + [comps[j]];
      var key := comps[j].0;
      assert key !in Keys(comps[..j]) by {
        forall k | 0 <= k < j ensures Keys(comps[..j])[k] != key {
          assert comps[..j][k] == comps[k];
        }
      }
      var count := if key in r then r[key] else 0;
      r := r[key := count + 1];
    }
    assert comps[..|comps|] == comps;
  }

  /** The last loop of commonComponents: the names whose count is the target. */
  method KeysWithCount(countMap: map<string, int>, target: int) returns (names: set<string>)
    ensures forall c :: c in names <==> c in countMap && countMap[c] == target
  {
    names := {};
    var keys := countMap.Keys;
    while keys != {}
      invariant keys <= countMap.Keys
      invariant forall c :: c in names <==> c in countMap.Keys - keys && countMap[c] == target
      decreases keys
    {
      var c :| c in keys;
      if countMap[c] == target {
        names := names + {c};
      }
      keys := keys - {c};
    }
  }
}
