/**
 * Custom property types (src/libtiled/propertytype.cpp): enums and classes,
 * the conversions between their stored values and the export (file) form,
 * the serialisation of their definitions, and the cycle check for class
 * members.
 *
 * The C++ class hierarchy PropertyType / EnumPropertyType / ClassPropertyType
 * becomes one datatype with a constructor per kind; each virtual member
 * becomes a function or method that matches on the kind.  The host's
 * conversions (ExportContext) are passed in as an `ExportContext` value whose
 * fields are opaque functions, and the registry that ExportContext::types()
 * returns is passed as a sequence of types.
 */
module PropertyTypeSystem {
  import opened Variant
  import opened Bits

  /** PropertyType::Type. */
  datatype Kind = Enum | Class | Invalid

  /** EnumPropertyType::StorageType. */
  datatype StorageType = IntValue | StringValue

  datatype PropertyType =
    | EnumType(id: int, name: string, storageType: StorageType, values: seq<string>, valuesAsFlags: bool)
    | ClassType(id: int, name: string, members: Entries<Value>)
  {
    function TypeKind(): Kind
    {
      if EnumType? then Enum else Class
    }
  }

  /** ExportValue: a value in the form it is written to a file. */
  datatype ExportValue = ExportValue(value: Value, typeName: string, propertyTypeName: string)

  /** QVariant::userType(), as far as the conversions distinguish it. */
  datatype MetaType = InvalidMeta | BoolMeta | IntMeta | StringMeta | ListMeta | MapMeta | PropertyValueMeta

  function UserType(v: Value): MetaType
  {
    match v
    case Null => InvalidMeta
    case Bool(_) => BoolMeta
    case Int(_) => IntMeta
    case Str(_) => StringMeta
    case List(_) => ListMeta
    case Map(_) => MapMeta
    case Wrapped(_, _) => PropertyValueMeta
  }

  /**
   * The host's ExportContext: conversions this file calls but does not define.
   *   toExportValue:   ExportContext::toExportValue(value)
   *   toPropertyValue: ExportContext::toPropertyValue(exportValue), which resolves
   *                    the custom type name against the registry it is given
   *   convert:         ExportContext::toPropertyValue(value, userType)
   */
  datatype ExportContext = ExportContext(
    toExportValue: Value -> ExportValue,
    toPropertyValue: (seq<PropertyType>, ExportValue) -> Value,
    convert: (Value, MetaType) -> Value)

  /** The host's typed conversion never produces a larger value than it is given. */
  ghost predicate Shrinks(ctx: ExportContext)
  {
    forall v: Value, m: MetaType :: Size(ctx.convert(v, m)) <= Size(v)
  }

  /** The host exports plain strings as themselves. */
  ghost predicate PassesStrings(ctx: ExportContext)
  {
    forall s: string :: ctx.toExportValue(Str(s)).value == Str(s)
  }

  ghost predicate Distinct(values: seq<string>)
  {
    forall i, j :: 0 <= i < j < |values| ==> values[i] != values[j]
  }

  // =====================================================================
  // PropertyType (base)

  /** PropertyType::wrap: tags a value with this type's id. */
  function Wrap(t: PropertyType, v: Value): Value
  {
    Wrapped(v, t.id)
  }

  /** PropertyType::toExportValue: the host conversion, stamped with this type's name. */
  function BaseExport(t: PropertyType, v: Value, ctx: ExportContext): ExportValue
  {
    ctx.toExportValue(v).(propertyTypeName := t.name)
  }

  /** PropertyType::typeFromString. */
  function TypeFromString(s: string): (k: Kind)
    ensures k == Enum <==> s == "enum" || s == ""
    ensures k == Class <==> s == "class"
  {
    if s == "enum" || s == "" then Enum
    else if s == "class" then Class
    else Invalid
  }

  /** PropertyType::typeToString. */
  function TypeToString(k: Kind): string
  {
    match k
    case Class => "class"
    case Enum => "enum"
    case Invalid => "invalid"
  }

  /** Kind names round-trip; the empty string is accepted but never written. */
  lemma KindStringRoundTrip(k: Kind)
    ensures TypeToString(k) != ""
    ensures TypeFromString(TypeToString(k)) == k
  {
  }

  /** EnumPropertyType::storageTypeFromString: "int", and string storage for anything else. */
  function StorageTypeFromString(s: string): (st: StorageType)
    ensures st == IntValue <==> s == "int"
  {
    if s == "int" then IntValue else StringValue
  }

  /** EnumPropertyType::storageTypeToString. */
  function StorageTypeToString(st: StorageType): string
  {
    match st
    case IntValue => "int"
    case StringValue => "string"
  }

  lemma StorageTypeRoundTrip(st: StorageType)
    ensures StorageTypeFromString(StorageTypeToString(st)) == st
  {
  }

  /** The defaultValue() of each kind. */
  function DefaultValue(t: PropertyType): Value
  {
    if t.EnumType? then Int(0) else Map([])
  }

  // =====================================================================
  // EnumPropertyType: export

  /** One step of the flag loop: a ',' only when something was written before. */
  function AppendFlag(acc: string, name: string): string
  {
    (if acc == "" then acc else acc + ",") + name
  }

  /** The string the flag loop has built after looking at bits 0..k-1 of x. */
  function FlagsText(values: seq<string>, x: int, k: nat): string
    requires k <= |values|
  {
    if k == 0 then ""
    else
      var acc := FlagsText(values, x, k - 1);
      if Bit(x, k - 1) then AppendFlag(acc, values[k - 1]) else acc
  }

  /** The names whose bit is set in x, among indices 0..k-1, in index order. */
  function FlagNames(values: seq<string>, x: int, k: nat): seq<string>
    requires k <= |values|
  {
    if k == 0 then []
    else FlagNames(values, x, k - 1) + (if Bit(x, k - 1) then [values[k - 1]] else [])
  }

  /** Names joined with ','. */
  function Join(names: seq<string>): string
  {
    if names == [] then ""
    else if |names| == 1 then names[0]
    else Join(names[..|names| - 1]) + "," + names[|names| - 1]
  }

  /** The value EnumPropertyType::toExportValue hands to the base conversion. */
  function ExportedEnumValue(t: PropertyType, v: Value): Value
    requires t.EnumType?
  {
    if v.Int? && t.storageType == StringValue then
      if t.valuesAsFlags then Str(FlagsText(t.values, v.i, |t.values|))
      else if 0 <= v.i < |t.values| then Str(t.values[v.i])
      else v
    else v
  }

  /** EnumPropertyType::toExportValue. */
  method EnumToExportValue(t: PropertyType, v: Value, ctx: ExportContext) returns (r: ExportValue)
    requires t.EnumType?
    ensures r == BaseExport(t, ExportedEnumValue(t, v), ctx)
    ensures r.propertyTypeName == t.name
  {
    if v.Int? && t.storageType == StringValue {
      var intValue := v.i;
      if t.valuesAsFlags {
        var stringValue := "";
        for i := 0 to |t.values|
          invariant stringValue == FlagsText(t.values, intValue, i)
        {
          if Bit(intValue, i) {
            if stringValue != "" {
              stringValue := stringValue + ",";
            }
            stringValue := stringValue + t.values[i];
          }
        }
        return BaseExport(t, Str(stringValue), ctx);
      } else if 0 <= intValue < |t.values| {
        return BaseExport(t, Str(t.values[intValue]), ctx);
      }
    }
    return BaseExport(t, v, ctx);
  }

  lemma {:induction false} JoinIsEmpty(names: seq<string>)
    requires forall w :: w in names ==> w != ""
    ensures Join(names) == "" <==> names == []
  {
    if |names| > 1 {
      assert names[|names| - 1] in names;
    } else if |names| == 1 {
      assert names[0] in names;
    }
  }

  /**
   * With non-empty names, the flag loop writes exactly the names of the set
   * bits, in ascending index order, separated by ','.
   */
  lemma {:induction false} FlagsTextIsJoin(values: seq<string>, x: int, k: nat)
    requires k <= |values|
    requires forall w :: w in values ==> w != ""
    ensures FlagsText(values, x, k) == Join(FlagNames(values, x, k))
    ensures forall w :: w in FlagNames(values, x, k) ==> w in values
  {
    if k > 0 {
      FlagsTextIsJoin(values, x, k - 1);
      var before := FlagNames(values, x, k - 1);
      JoinIsEmpty(before);
      if Bit(x, k - 1) {
        var names := before + [values[k - 1]];
        assert names[..|names| - 1] == before;
        assert values[k - 1] in values;
      } else {
        assert FlagNames(values, x, k) == before;
      }
    }
  }

  /**
   * What the enum export hands on: int storage, a value that is not an int
   * and an index out of range pass through unchanged; with string storage a
   * valid index becomes its name, and a flag mask the ','-joined names of
   * its set bits in index order.
   */
  lemma EnumExportCases(t: PropertyType, v: Value)
    requires t.EnumType?
    ensures t.storageType == IntValue || !v.Int? ==> ExportedEnumValue(t, v) == v
    ensures v.Int? && t.storageType == StringValue && !t.valuesAsFlags ==>
      ExportedEnumValue(t, v) == if 0 <= v.i < |t.values| then Str(t.values[v.i]) else v
    ensures v.Int? && t.storageType == StringValue && t.valuesAsFlags && (forall w :: w in t.values ==> w != "") ==>
      ExportedEnumValue(t, v) == Str(Join(FlagNames(t.values, v.i, |t.values|)))
    ensures v.Int? && t.storageType == StringValue && t.valuesAsFlags && (forall w :: w in t.values ==> w != "") ==>
      (ExportedEnumValue(t, v) == Str("") <==> forall i :: 0 <= i < |t.values| ==> !Bit(v.i, i))
  {
    if v.Int? && t.storageType == StringValue && t.valuesAsFlags && (forall w :: w in t.values ==> w != "") {
      FlagsTextIsJoin(t.values, v.i, |t.values|);
      FlagsTextEmpty(t.values, v.i, |t.values|);
    }
  }

  /** No set bit among 0..k-1 is exactly when nothing is written. */
  lemma {:induction false} FlagsTextEmpty(values: seq<string>, x: int, k: nat)
    requires k <= |values|
    requires forall w :: w in values ==> w != ""
    ensures FlagsText(values, x, k) == "" <==> forall i :: 0 <= i < k ==> !Bit(x, i)
  {
    if k > 0 {
      FlagsTextEmpty(values, x, k - 1);
      assert values[k - 1] in values;
    }
  }

  // =====================================================================
  // EnumPropertyType: import

  /** Every part of s between ',' separators, empty ones included. */
  function SplitAll(s: string): (parts: seq<string>)
    ensures |parts| >= 1
  {
    if s == [] then [""]
    else
      var rest := SplitAll(s[1..]);
      if s[0] == ',' then [""] + rest
      else [[s[0]] + rest[0]] + rest[1..]
  }

  function DropEmpty(parts: seq<string>): seq<string>
  {
    if parts == [] then []
    else (if parts[0] == "" then [] else [parts[0]]) + DropEmpty(parts[1..])
  }

  /** QString::split(',', Qt::SkipEmptyParts). */
  function SplitSkipEmpty(s: string): seq<string>
  {
    DropEmpty(SplitAll(s))
  }

  /** QStringList::indexOf: the first index of s, or -1. */
  function IndexOf(values: seq<string>, s: string): (r: int)
    ensures -1 <= r < |values|
    ensures r >= 0 ==> values[r] == s && forall j :: 0 <= j < r ==> values[j] != s
    ensures r == -1 <==> s !in values
  {
    if values == [] then -1
    else if values[0] == s then 0
    else
      var r := IndexOf(values[1..], s);
      assert values == [values[0]] + values[1..];
      if r == -1 then -1 else r + 1
  }

  /** The flag loop on the segments: None as soon as one name is unknown. */
  function FlagsFrom(values: seq<string>, segments: seq<string>, flags: int): Option<int>
  {
    if segments == [] then Some(flags)
    else
      var index := IndexOf(values, segments[0]);
      if index == -1 then None
      else FlagsFrom(values, segments[1..], SetBit(flags, index))
  }

  /** The value EnumPropertyType::toPropertyValue returns. */
  function ImportedEnumValue(t: PropertyType, v: Value): (r: Value)
    requires t.EnumType?
    ensures r.Wrapped? && r.typeId == t.id
  {
    if v.Str? then
      if t.valuesAsFlags then
        match FlagsFrom(t.values, SplitSkipEmpty(v.s), 0)
        case Some(flags) => Wrap(t, Int(flags))
        case None => Wrap(t, v)
      else if IndexOf(t.values, v.s) != -1 then Wrap(t, Int(IndexOf(t.values, v.s)))
      else Wrap(t, v)
    else Wrap(t, v)
  }

  /** EnumPropertyType::toPropertyValue. */
  method EnumToPropertyValue(t: PropertyType, v: Value) returns (r: Value)
    requires t.EnumType?
    ensures r == ImportedEnumValue(t, v)
  {
    if v.Str? {
      var stringValue := v.s;
      if t.valuesAsFlags {
        var flags := 0;
        var stringValues := SplitSkipEmpty(stringValue);
        for i := 0 to |stringValues|
          invariant FlagsFrom(t.values, stringValues, 0) == FlagsFrom(t.values, stringValues[i..], flags)
        {
          assert stringValues[i..][1..] == stringValues[i + 1..];
          var index := IndexOf(t.values, stringValues[i]);
          // an unknown name leaves the input string as it was
          if index == -1 {
            return Wrap(t, v);
          }
          flags := SetBit(flags, index);
        }
        return Wrap(t, Int(flags));
      }
      var index := IndexOf(t.values, stringValue);
      if index != -1 {
        return Wrap(t, Int(index));
      }
    }
    return Wrap(t, v);
  }

  lemma {:induction false} FlagsFromUnknown(values: seq<string>, segments: seq<string>, flags: int)
    requires exists w :: w in segments && w !in values
    ensures FlagsFrom(values, segments, flags) == None
  {
    if IndexOf(values, segments[0]) != -1 {
      assert segments == [segments[0]] + segments[1..];
      FlagsFromUnknown(values, segments[1..], SetBit(flags, IndexOf(values, segments[0])));
    }
  }

  lemma {:induction false} FlagsFromKnown(values: seq<string>, segments: seq<string>, flags: int)
    requires forall w :: w in segments ==> w in values
    ensures FlagsFrom(values, segments, flags).Some?
  {
    if segments != [] {
      assert segments[0] in segments;
      assert forall w :: w in segments[1..] ==> w in segments;
      FlagsFromKnown(values, segments[1..], SetBit(flags, IndexOf(values, segments[0])));
    }
  }

  /**
   * A flags string with an unknown name is kept verbatim (wrapped), so no
   * flag is silently dropped.
   */
  lemma UnknownFlagKeepsString(t: PropertyType, s: string)
    requires t.EnumType? && t.valuesAsFlags
    requires exists w :: w in SplitSkipEmpty(s) && w !in t.values
    ensures ImportedEnumValue(t, Str(s)) == Wrapped(Str(s), t.id)
  {
    FlagsFromUnknown(t.values, SplitSkipEmpty(s), 0);
  }

  /** The flag loop sets exactly the bits of the names it has seen. */
  lemma {:induction false} FlagsFromBits(values: seq<string>, segments: seq<string>, flags: int, i: nat)
    requires FlagsFrom(values, segments, flags).Some?
    ensures Bit(FlagsFrom(values, segments, flags).value, i) <==>
      Bit(flags, i) || exists w :: w in segments && IndexOf(values, w) == i
  {
    if segments != [] {
      var index := IndexOf(values, segments[0]);
      var rest := segments[1..];
      FlagsFromBits(values, rest, SetBit(flags, index), i);
      SetBitSpec(flags, index, i);
      assert segments[0] in segments;
      assert forall w :: w in rest ==> w in segments;
      if exists w :: w in segments && IndexOf(values, w) == i {
        var w :| w in segments && IndexOf(values, w) == i;
        if w != segments[0] {
          assert w in rest;
        }
      }
    }
  }

  /**
   * A flags string of known names only becomes the wrapped OR of
   * `1 << index` over its names: bit i is set exactly when a name with
   * index i occurs.
   */
  lemma KnownFlagsBecomeMask(t: PropertyType, s: string, i: nat)
    requires t.EnumType? && t.valuesAsFlags
    requires forall w :: w in SplitSkipEmpty(s) ==> w in t.values
    ensures ImportedEnumValue(t, Str(s)).payload.Int?
    ensures ImportedEnumValue(t, Str(s)) == Wrapped(Int(FlagsFrom(t.values, SplitSkipEmpty(s), 0).value), t.id)
    ensures Bit(ImportedEnumValue(t, Str(s)).payload.i, i) <==>
      exists w :: w in SplitSkipEmpty(s) && IndexOf(t.values, w) == i
  {
    FlagsFromKnown(t.values, SplitSkipEmpty(s), 0);
    FlagsFromBits(t.values, SplitSkipEmpty(s), 0, i);
    ZeroHasNoBits(i);
  }

  /** A value that is not a string is only wrapped. */
  lemma NonStringEnumImport(t: PropertyType, v: Value)
    requires t.EnumType? && !v.Str?
    ensures ImportedEnumValue(t, v) == Wrapped(v, t.id)
  {
  }

  /** Outside flags mode a known name becomes its first index, an unknown one stays a string. */
  lemma EnumNameImport(t: PropertyType, s: string)
    requires t.EnumType? && !t.valuesAsFlags
    ensures s in t.values ==> ImportedEnumValue(t, Str(s)) == Wrapped(Int(IndexOf(t.values, s)), t.id)
    ensures s in t.values ==> t.values[IndexOf(t.values, s)] == s
    ensures s !in t.values ==> ImportedEnumValue(t, Str(s)) == Wrapped(Str(s), t.id)
  {
  }

  // ---------------------------------------------------------------------
  // Round trips of enum values.

  lemma {:induction false} SplitAllConcat(a: string, b: string)
    ensures SplitAll(a + "," + b) == SplitAll(a) + SplitAll(b)
  {
    if a == [] {
      assert ("" + "," + b)[1..] == b;
    } else {
      assert (a + "," + b)[1..] == a[1..] + "," + b;
      assert (a + "," + b)[0] == a[0];
      SplitAllConcat(a[1..], b);
    }
  }

  lemma {:induction false} SplitAllPlain(w: string)
    requires ',' !in w
    ensures SplitAll(w) == [w]
  {
    if w != [] {
      assert w[0] in w;
      assert forall c :: c in w[1..] ==> c in w;
      SplitAllPlain(w[1..]);
      assert w == [w[0]] + w[1..];
    }
  }

  lemma {:induction false} DropEmptyConcat(a: seq<string>, b: seq<string>)
    ensures DropEmpty(a + b) == DropEmpty(a) + DropEmpty(b)
  {
    if a != [] {
      assert (a + b)[1..] == a[1..] + b;
      assert (a + b)[0] == a[0];
      DropEmptyConcat(a[1..], b);
    } else {
      assert a + b == b;
    }
  }

  /** Splitting joined names gives the names back when they are non-empty and have no ','. */
  lemma {:induction false} SplitJoin(names: seq<string>)
    requires forall w :: w in names ==> w != "" && ',' !in w
    ensures SplitSkipEmpty(Join(names)) == names
  {
    if |names| == 1 {
      var w := names[0];
      assert w in names;
      SplitAllPlain(w);
      assert DropEmpty([w]) == [w] by {
        assert [w][1..] == [];
      }
      assert names == [w];
    } else if |names| > 1 {
      var init, last := names[..|names| - 1], names[|names| - 1];
      assert last in names;
      assert forall w :: w in init ==> w in names;
      SplitJoin(init);
      assert Join(names) == Join(init) + "," + last;
      SplitJoinSnoc(init, last);
      assert names == init + [last];
    }
  }

  /** One more name after a joined list splits off as the last part. */
  lemma SplitJoinSnoc(init: seq<string>, last: string)
    requires SplitSkipEmpty(Join(init)) == init && last != "" && ',' !in last
    ensures SplitSkipEmpty(Join(init) + "," + last) == init + [last]
  {
    var parts := SplitAll(Join(init));
    assert SplitAll(Join(init) + "," + last) == parts + [last] by {
      SplitAllConcat(Join(init), last);
      SplitAllPlain(last);
    }
    assert DropEmpty(parts + [last]) == init + [last] by {
      DropEmptyConcat(parts, [last]);
      assert DropEmpty([last]) == [last] by {
        assert [last][1..] == [];
      }
    }
  }

  lemma {:induction false} FlagsFromConcat(values: seq<string>, a: seq<string>, b: seq<string>, flags: int)
    ensures FlagsFrom(values, a + b, flags) ==
      match FlagsFrom(values, a, flags)
      case Some(f) => FlagsFrom(values, b, f)
      case None => None
  {
    if a != [] {
      assert (a + b)[1..] == a[1..] + b;
      assert (a + b)[0] == a[0];
      var index := IndexOf(values, a[0]);
      if index != -1 {
        FlagsFromConcat(values, a[1..], b, SetBit(flags, index));
      }
    } else {
      assert a + b == b;
    }
  }

  /** Importing the names of the set bits among 0..k-1 rebuilds the low k bits. */
  lemma {:induction false} FlagsFromNames(values: seq<string>, x: int, k: nat)
    requires k <= |values| && Distinct(values)
    ensures FlagsFrom(values, FlagNames(values, x, k), 0) == Some(x % Pow2(k))
  {
    if k == 0 {
      assert x % 1 == 0;
    } else {
      FlagsFromNames(values, x, k - 1);
      FlagsFromNamesStep(values, x, k - 1);
    }
  }

  /** One more bit: the name of bit i, when set, contributes exactly that bit. */
  lemma FlagsFromNamesStep(values: seq<string>, x: int, i: nat)
    requires i < |values| && Distinct(values)
    requires FlagsFrom(values, FlagNames(values, x, i), 0) == Some(x % Pow2(i))
    ensures FlagsFrom(values, FlagNames(values, x, i + 1), 0) == Some(x % Pow2(i + 1))
  {
    var before := FlagNames(values, x, i);
    var low := x % Pow2(i);
    ModPow2Step(x, i);
    if Bit(x, i) {
      assert x % Pow2(i + 1) == SetBit(low, i) by {
        SetBitOfLow(x, i);
      }
      assert FlagsFrom(values, [values[i]], low) == Some(SetBit(low, i)) by {
        assert IndexOf(values, values[i]) == i;
      }
      assert FlagNames(values, x, i + 1) == before + [values[i]];
      FlagsFromConcat(values, before, [values[i]], 0);
    } else {
      assert FlagNames(values, x, i + 1) == before;
    }
  }

  /**
   * With string storage and distinct names, exporting a valid index and
   * importing the result gives the index back.
   */
  lemma EnumIndexRoundTrip(t: PropertyType, i: int, ctx: ExportContext)
    requires t.EnumType? && t.storageType == StringValue && !t.valuesAsFlags
    requires Distinct(t.values) && 0 <= i < |t.values| && PassesStrings(ctx)
    ensures ImportedEnumValue(t, BaseExport(t, ExportedEnumValue(t, Int(i)), ctx).value) == Wrapped(Int(i), t.id)
  {
    assert ctx.toExportValue(Str(t.values[i])).value == Str(t.values[i]);
    assert IndexOf(t.values, t.values[i]) == i;
  }

  /**
   * With string storage, distinct non-empty names without ',', exporting a
   * flag mask that uses only the bits of the names and importing the result
   * gives the mask back (the empty mask included).
   */
  lemma EnumFlagsRoundTrip(t: PropertyType, f: int, ctx: ExportContext)
    requires t.EnumType? && t.storageType == StringValue && t.valuesAsFlags
    requires Distinct(t.values) && forall w :: w in t.values ==> w != "" && ',' !in w
    requires 0 <= f < Pow2(|t.values|) && PassesStrings(ctx)
    ensures ImportedEnumValue(t, BaseExport(t, ExportedEnumValue(t, Int(f)), ctx).value) == Wrapped(Int(f), t.id)
  {
    var n := |t.values|;
    var text := FlagsText(t.values, f, n);
    assert ctx.toExportValue(Str(text)).value == Str(text);
    FlagsTextIsJoin(t.values, f, n);
    SplitJoin(FlagNames(t.values, f, n));
    FlagsFromNames(t.values, f, n);
    SmallIsLow(f, n);
  }

  // =====================================================================
  // ClassPropertyType: values

  /** What PropertyTypes::findTypeById and findTypeByName look a type up by. */
  datatype TypeKey = ById(id: int) | ByName(name: string)

  predicate HasKey(t: PropertyType, key: TypeKey)
  {
    match key
    case ById(id) => t.id == id
    case ByName(name) => t.name == name
  }

  /**
   * The registry position of the first type with the key, or -1: the
   * std::find_if of findTypeById and findTypeByName.
   */
  function IndexOfKey(types: seq<PropertyType>, key: TypeKey): (r: int)
    ensures -1 <= r < |types|
    ensures r >= 0 ==> HasKey(types[r], key) && forall j :: 0 <= j < r ==> !HasKey(types[j], key)
    ensures r == -1 ==> forall j :: 0 <= j < |types| ==> !HasKey(types[j], key)
  {
    if types == [] then -1
    else if HasKey(types[0], key) then 0
    else
      var r := IndexOfKey(types[1..], key);
      if r == -1 then -1 else r + 1
  }

  function FindTypeById(types: seq<PropertyType>, id: int): Option<PropertyType>
  {
    var i := IndexOfKey(types, ById(id));
    if i == -1 then None else Some(types[i])
  }

  /** The host conversion of every member value (ClassPropertyType::toExportValue's loop). */
  function ExportedEntries(entries: Entries<Value>, ctx: ExportContext): (r: Entries<Value>)
  {
    seq(|entries|, k requires 0 <= k < |entries| => (entries[k].0, ctx.toExportValue(entries[k].1).value))
  }

  /** ClassPropertyType::toExportValue. */
  method ClassToExportValue(t: PropertyType, v: Value, ctx: ExportContext) returns (r: ExportValue)
    requires t.ClassType?
    ensures r == BaseExport(t, Map(ExportedEntries(ToMap(v), ctx)), ctx)
    ensures Keys(ExportedEntries(ToMap(v), ctx)) == Keys(ToMap(v))
  {
    var properties := ToMap(v);
    for i := 0 to |properties|
      invariant |properties| == |ToMap(v)|
      invariant forall k :: 0 <= k < i ==> properties[k] == (ToMap(v)[k].0, ctx.toExportValue(ToMap(v)[k].1).value)
      invariant forall k :: i <= k < |properties| ==> properties[k] == ToMap(v)[k]
    {
      var exportValue := ctx.toExportValue(properties[i].1);
      properties := properties[i := (properties[i].0, exportValue.value)];
    }
    assert properties == ExportedEntries(ToMap(v), ctx);
    r := BaseExport(t, Map(properties), ctx);
  }

  /**
   * The value a class member gets on import: unchanged when the class no
   * longer declares it, otherwise converted with the declared member's type
   * as hint and, for a member of a custom type, imported by that type.
   */
  function ImportedMember(t: PropertyType, key: string, value: Value, ctx: ExportContext, types: seq<PropertyType>): Value
    requires t.ClassType? && Shrinks(ctx)
    decreases Size(value), 2
  {
    var classMember := Get(t.members, key);
    if classMember == Null then value
    else
      var propertyValue := ctx.convert(value, UserType(classMember));
      if classMember.Wrapped? then
        match FindTypeById(types, classMember.typeId)
        case Some(nested) => ImportedValue(nested, propertyValue, ctx, types)
        case None => propertyValue
      else propertyValue
  }

  function ImportedEntries(t: PropertyType, entries: Entries<Value>, ctx: ExportContext, types: seq<PropertyType>): (r: Entries<Value>)
    requires t.ClassType? && Shrinks(ctx)
    decreases EntriesSize(entries), 3
  {
    seq(|entries|, k requires 0 <= k < |entries| =>
      EntrySizeLess(entries, k);
      (entries[k].0, ImportedMember(t, entries[k].0, entries[k].1, ctx, types)))
  }

  /** The value ClassPropertyType::toPropertyValue returns. */
  function ImportedClassValue(t: PropertyType, v: Value, ctx: ExportContext, types: seq<PropertyType>): (r: Value)
    requires t.ClassType? && Shrinks(ctx)
    decreases Size(v), 0
  {
    Wrap(t, Map(ImportedEntries(t, ToMap(v), ctx, types)))
  }

  /** The value PropertyType::toPropertyValue returns, dispatched on the kind. */
  function ImportedValue(t: PropertyType, v: Value, ctx: ExportContext, types: seq<PropertyType>): (r: Value)
    requires Shrinks(ctx)
    ensures r.Wrapped? && r.typeId == t.id
    decreases Size(v), 1
  {
    if t.EnumType? then ImportedEnumValue(t, v) else ImportedClassValue(t, v, ctx, types)
  }

  /**
   * Class import keeps every key of the input, in order, and leaves the value
   * of a key the class does not declare untouched; the result is a map
   * wrapped with the class's id.
   */
  lemma ClassImportShape(t: PropertyType, v: Value, ctx: ExportContext, types: seq<PropertyType>)
    requires t.ClassType? && Shrinks(ctx)
    ensures ImportedClassValue(t, v, ctx, types).typeId == t.id
    ensures ImportedClassValue(t, v, ctx, types).payload.Map?
    ensures Keys(ImportedClassValue(t, v, ctx, types).payload.entries) == Keys(ToMap(v))
    ensures forall k :: 0 <= k < |ToMap(v)| && Get(t.members, ToMap(v)[k].0) == Null ==>
      ImportedClassValue(t, v, ctx, types).payload.entries[k] == ToMap(v)[k]
    ensures forall k :: 0 <= k < |ToMap(v)| && Get(t.members, ToMap(v)[k].0) != Null && !Get(t.members, ToMap(v)[k].0).Wrapped? ==>
      ImportedClassValue(t, v, ctx, types).payload.entries[k] ==
        (ToMap(v)[k].0, ctx.convert(ToMap(v)[k].1, UserType(Get(t.members, ToMap(v)[k].0))))
  {
    var e := ToMap(v);
    assert ImportedClassValue(t, v, ctx, types) == Wrapped(Map(ImportedEntries(t, e, ctx, types)), t.id);
    var r := ImportedEntries(t, e, ctx, types);
    assert |r| == |e|;
    forall k | 0 <= k < |e|
      ensures r[k] == (e[k].0, ImportedMember(t, e[k].0, e[k].1, ctx, types))
    {
    }
  }

  /** PropertyType::toPropertyValue, dispatched on the kind. */
  method ToPropertyValue(t: PropertyType, v: Value, ctx: ExportContext, types: seq<PropertyType>) returns (r: Value)
    requires Shrinks(ctx)
    ensures r == ImportedValue(t, v, ctx, types)
    decreases Size(v), 1
  {
    if t.EnumType? {
      r := EnumToPropertyValue(t, v);
    } else {
      r := ClassToPropertyValue(t, v, ctx, types);
    }
  }

  /** ClassPropertyType::toPropertyValue. */
  method ClassToPropertyValue(t: PropertyType, v: Value, ctx: ExportContext, types: seq<PropertyType>) returns (r: Value)
    requires t.ClassType? && Shrinks(ctx)
    ensures r == ImportedClassValue(t, v, ctx, types)
    decreases Size(v), 0
  {
    var input := ToMap(v);
    ghost var imported := ImportedEntries(t, input, ctx, types);
    assert |imported| == |input| &&
      forall k :: 0 <= k < |input| ==> imported[k] == (input[k].0, ImportedMember(t, input[k].0, input[k].1, ctx, types));
    var properties := input;
    for i := 0 to |properties|
      invariant |properties| == |input|
      invariant forall k :: 0 <= k < i ==> properties[k] == imported[k]
      invariant forall k :: i <= k < |properties| ==> properties[k] == input[k]
    {
      var key := properties[i].0;
      EntrySizeLess(input, i);
      var propertyValue := MemberToPropertyValue(t, key, properties[i].1, ctx, types);
      properties := properties[i := (key, propertyValue)];
    }
    assert properties == imported;
    r := Wrap(t, Map(properties));
  }

  /**
   * The body of the loop of ClassPropertyType::toPropertyValue: the value is
   * converted to the member's type and wrapped in the member's custom type
   * when it has one; a removed member is left as it is.
   */
  method MemberToPropertyValue(t: PropertyType, key: string, value: Value, ctx: ExportContext, types: seq<PropertyType>) returns (r: Value)
    requires t.ClassType? && Shrinks(ctx)
    ensures r == ImportedMember(t, key, value, ctx, types)
    decreases Size(value), 2
  {
    var classMember := Get(t.members, key);
    if classMember == Null {  // a member the class no longer declares keeps its value
      return value;
    }
    r := ctx.convert(value, UserType(classMember));
    // a member of a custom type is imported again by that type, when registered
    if classMember.Wrapped? {
      var found := FindTypeById(types, classMember.typeId);
      if found.Some? {
        r := ToPropertyValue(found.value, r, ctx, types);
      }
    }
  }

  /** PropertyType::toExportValue, dispatched on the kind. */
  method ToExportValue(t: PropertyType, v: Value, ctx: ExportContext) returns (r: ExportValue)
    ensures r.propertyTypeName == t.name
    ensures t.EnumType? ==> r == BaseExport(t, ExportedEnumValue(t, v), ctx)
    ensures t.ClassType? ==> r == BaseExport(t, Map(ExportedEntries(ToMap(v), ctx)), ctx)
  {
    if t.EnumType? {
      r := EnumToExportValue(t, v, ctx);
    } else {
      r := ClassToExportValue(t, v, ctx);
    }
  }

  /**
   * The default value of each kind is a value its own import accepts: the
   * enum's 0 is index 0 (or the empty mask), the class's empty map stays an
   * empty map.
   */
  lemma DefaultValueRoundTrip(t: PropertyType, ctx: ExportContext, types: seq<PropertyType>)
    requires Shrinks(ctx) && PassesStrings(ctx)
    requires t.EnumType? ==> t.storageType == StringValue && Distinct(t.values)
    requires t.EnumType? && t.valuesAsFlags ==> forall w :: w in t.values ==> w != "" && ',' !in w
    requires t.EnumType? && !t.valuesAsFlags ==> |t.values| > 0
    ensures t.EnumType? ==> DefaultValue(t) == Int(0)
    ensures t.EnumType? ==> ImportedValue(t, BaseExport(t, ExportedEnumValue(t, DefaultValue(t)), ctx).value, ctx, types) == Wrapped(Int(0), t.id)
    ensures t.ClassType? ==> DefaultValue(t) == Map([])
    ensures t.ClassType? ==> ImportedValue(t, DefaultValue(t), ctx, types) == Wrapped(Map([]), t.id)
  {
    if t.EnumType? {
      if t.valuesAsFlags {
        EnumFlagsRoundTrip(t, 0, ctx);
      } else {
        EnumIndexRoundTrip(t, 0, ctx);
      }
    } else {
      assert ImportedEntries(t, [], ctx, types) == [];
    }
  }

  // =====================================================================
  // Definitions: toVariant / fromVariant

  /** PropertyType::toVariant: { type, id, name }. */
  function BaseRecord(t: PropertyType): Entries<Value>
  {
    Insert(Insert(Insert([], "type", Str(TypeToString(t.TypeKind()))), "id", Int(t.id)), "name", Str(t.name))
  }

  /** EnumPropertyType::toVariant. */
  function EnumToVariant(t: PropertyType): Entries<Value>
    requires t.EnumType?
  {
    var variant := BaseRecord(t);
    var variant := Insert(variant, "storageType", Str(StorageTypeToString(t.storageType)));
    var variant := Insert(variant, "values", StringList(t.values));
    Insert(variant, "valuesAsFlags", Bool(t.valuesAsFlags))
  }

  /** The record ClassPropertyType::toVariant writes for one member. */
  function MemberRecord(key: string, value: Value, ctx: ExportContext): Entries<Value>
  {
    var exportValue := ctx.toExportValue(value);
    var member := Insert(Insert(Insert([], "name", Str(key)), "type", Str(exportValue.typeName)), "value", exportValue.value);
    if exportValue.propertyTypeName != "" then Insert(member, "propertyType", Str(exportValue.propertyTypeName))
    else member
  }

  function MemberRecords(members: Entries<Value>, ctx: ExportContext): seq<Value>
  {
    seq(|members|, i requires 0 <= i < |members| => Map(MemberRecord(members[i].0, members[i].1, ctx)))
  }

  /** The body of the loop of ClassPropertyType::toVariant: the record of one member. */
  method MemberToVariant(key: string, value: Value, ctx: ExportContext) returns (member: Entries<Value>)
    ensures member == MemberRecord(key, value, ctx)
  {
    var exportValue := ctx.toExportValue(value);
    member := Insert(Insert(Insert([], "name", Str(key)), "type", Str(exportValue.typeName)), "value", exportValue.value);
    if exportValue.propertyTypeName != "" {
      member := Insert(member, "propertyType", Str(exportValue.propertyTypeName));
    }
  }

  /** ClassPropertyType::toVariant. */
  method ClassToVariant(t: PropertyType, ctx: ExportContext) returns (r: Entries<Value>)
    requires t.ClassType?
    ensures r == Insert(BaseRecord(t), "members", List(MemberRecords(t.members, ctx)))
  {
    var members := MembersToVariant(t.members, ctx);
    var variant := BaseRecord(t);
    r := Insert(variant, "members", List(members));
  }

  /** The loop of ClassPropertyType::toVariant: one record per member, in the map's order. */
  method MembersToVariant(classMembers: Entries<Value>, ctx: ExportContext) returns (members: seq<Value>)
    ensures members == MemberRecords(classMembers, ctx)
  {
    members := [];
    for i := 0 to |classMembers|
      invariant |members| == i
      invariant RecordsPrefix(members, classMembers, ctx)
    {
      var member := MemberToVariant(classMembers[i].0, classMembers[i].1, ctx);
      RecordsPrefixGrows(members, classMembers, ctx, member);
      members := members + [Map(member)];
    }
    RecordsPrefixComplete(members, classMembers, ctx);
  }

  /** The first |members| records of a class's members, built so far. */
  ghost predicate RecordsPrefix(members: seq<Value>, classMembers: Entries<Value>, ctx: ExportContext)
  {
    |members| <= |classMembers| &&
    forall k :: 0 <= k < |members| ==> members[k] == Map(MemberRecord(classMembers[k].0, classMembers[k].1, ctx))
  }

  lemma RecordsPrefixGrows(members: seq<Value>, classMembers: Entries<Value>, ctx: ExportContext, member: Entries<Value>)
    requires RecordsPrefix(members, classMembers, ctx) && |members| < |classMembers|
    requires member == MemberRecord(classMembers[|members|].0, classMembers[|members|].1, ctx)
    ensures RecordsPrefix(members + [Map(member)], classMembers, ctx)
  {
    var grown := members + [Map(member)];
    forall k | 0 <= k < |grown|
      ensures grown[k] == Map(MemberRecord(classMembers[k].0, classMembers[k].1, ctx))
    {
      if k < |members| {
        assert grown[k] == members[k];
      }
    }
  }

  lemma RecordsPrefixComplete(members: seq<Value>, classMembers: Entries<Value>, ctx: ExportContext)
    requires RecordsPrefix(members, classMembers, ctx) && |members| == |classMembers|
    ensures members == MemberRecords(classMembers, ctx)
  {
    var records := MemberRecords(classMembers, ctx);
    forall k | 0 <= k < |members| ensures members[k] == records[k] {
    }
  }

  /** PropertyType::toVariant, dispatched on the kind. */
  method ToVariant(t: PropertyType, ctx: ExportContext) returns (r: Entries<Value>)
    ensures t.EnumType? ==> r == EnumToVariant(t)
    ensures t.ClassType? ==> r == Insert(BaseRecord(t), "members", List(MemberRecords(t.members, ctx)))
  {
    if t.EnumType? {
      r := EnumToVariant(t);
    } else {
      r := ClassToVariant(t, ctx);
    }
  }

  /** A member record carries "propertyType" exactly when the export names a custom type. */
  lemma MemberRecordFields(key: string, value: Value, ctx: ExportContext)
    ensures var rec := MemberRecord(key, value, ctx);
      && Get(rec, "name") == Str(key)
      && Get(rec, "type") == Str(ctx.toExportValue(value).typeName)
      && Get(rec, "value") == ctx.toExportValue(value).value
      && (Lookup(rec, "propertyType").Some? <==> ctx.toExportValue(value).propertyTypeName != "")
      && ToStr(Get(rec, "propertyType")) == ctx.toExportValue(value).propertyTypeName
  {
    var e := ctx.toExportValue(value);
    var base := Insert(Insert(Insert([], "name", Str(key)), "type", Str(e.typeName)), "value", e.value);
    BaseMemberFields(key, e.typeName, e.value, base);
    if e.propertyTypeName != "" {
      TaggedMemberFields(base, e.propertyTypeName);
    }
  }

  lemma BaseMemberFields(key: string, typeName: string, value: Value, base: Entries<Value>)
    requires base == Insert(Insert(Insert([], "name", Str(key)), "type", Str(typeName)), "value", value)
    ensures Get(base, "name") == Str(key) && Get(base, "type") == Str(typeName) && Get(base, "value") == value
    ensures Lookup(base, "propertyType").None?
  {
    var r1 := Insert([], "name", Str(key));
    var r2 := Insert(r1, "type", Str(typeName));
    assert "name" != "type" && "name" != "value" && "type" != "value";
    assert "propertyType" != "name" && "propertyType" != "type" && "propertyType" != "value";
    assert Lookup(r2, "name") == Some(Str(key));
  }

  lemma TaggedMemberFields(base: Entries<Value>, propertyTypeName: string)
    ensures var rec := Insert(base, "propertyType", Str(propertyTypeName));
      && Get(rec, "name") == Get(base, "name") && Get(rec, "type") == Get(base, "type")
      && Get(rec, "value") == Get(base, "value")
      && Get(rec, "propertyType") == Str(propertyTypeName)
  {
    assert "propertyType" != "name" && "propertyType" != "type" && "propertyType" != "value";
  }

  /** QVariantMap::value(key, defaultValue). */
  function GetOr(m: Entries<Value>, key: string, default: Value): Value
  {
    match Lookup(m, key)
    case Some(v) => v
    case None => default
  }

  /** EnumPropertyType::fromVariant. */
  function EnumFromVariant(t: PropertyType, variant: Entries<Value>): (r: PropertyType)
    requires t.EnumType?
  {
    t.(storageType := StorageTypeFromString(ToStr(Get(variant, "storageType"))),
       values := ToStringList(Get(variant, "values")),
       valuesAsFlags := ToBool(GetOr(variant, "valuesAsFlags", Bool(false))))
  }

  /** Definition defaults: string storage unless "int", no flags unless given. */
  lemma EnumDefinitionDefaults(t: PropertyType, variant: Entries<Value>)
    requires t.EnumType?
    ensures EnumFromVariant(t, variant).storageType == IntValue <==> ToStr(Get(variant, "storageType")) == "int"
    ensures Lookup(variant, "valuesAsFlags").None? ==> !EnumFromVariant(t, variant).valuesAsFlags
    ensures Lookup(variant, "valuesAsFlags") == Some(Str("False")) ==> !EnumFromVariant(t, variant).valuesAsFlags
    ensures EnumFromVariant(t, variant).id == t.id && EnumFromVariant(t, variant).name == t.name
  {
    StringToBool("False");
  }

  /** The name ClassPropertyType::fromVariant files a member record under. */
  function MemberName(member: Value): string
  {
    ToStr(Get(ToMap(member), "name"))
  }

  /** The members after inserting every record of the list, in order, as a raw map. */
  function MembersFromList(members: Entries<Value>, list: seq<Value>): Entries<Value>
  {
    if list == [] then members
    else
      var last := list[|list| - 1];
      Insert(MembersFromList(members, list[..|list| - 1]), MemberName(last), Map(ToMap(last)))
  }

  /** ClassPropertyType::fromVariant: members keep their raw records until resolved. */
  method ClassFromVariant(t: PropertyType, variant: Entries<Value>) returns (r: PropertyType)
    requires t.ClassType?
    ensures r == t.(members := MembersFromList(t.members, ToList(Get(variant, "members"))))
  {
    var membersList := ToList(Get(variant, "members"));
    var members := t.members;
    for i := 0 to |membersList|
      invariant members == MembersFromList(t.members, membersList[..i])
    {
      var fields := ToMap(membersList[i]);
      var name := ToStr(Get(fields, "name"));
      members := Insert(members, name, Map(fields));
      assert membersList[..i + 1][..i] == membersList[..i];
    }
    assert membersList[..|membersList|] == membersList;
    r := t.(members := members);
  }

  /** The records name their members in increasing order. */
  ghost predicate NamesIncrease(list: seq<Value>)
  {
    forall i, j :: 0 <= i < j < |list| ==> Less(MemberName(list[i]), MemberName(list[j]))
  }

  /**
   * Records whose names strictly increase, inserted into an empty map, are
   * filed in list order, each under its own name.
   */
  lemma {:induction false} MembersFromSortedRecords(list: seq<Value>)
    requires NamesIncrease(list)
    ensures |MembersFromList([], list)| == |list|
    ensures forall i :: 0 <= i < |list| ==> MembersFromList([], list)[i] == (MemberName(list[i]), Map(ToMap(list[i])))
  {
    if list != [] {
      var k := |list| - 1;
      var init := list[..k];
      assert NamesIncrease(init) by {
        assert forall i :: 0 <= i < k ==> init[i] == list[i];
      }
      MembersFromSortedRecords(init);
      var before := MembersFromList([], init);
      forall i | 0 <= i < |before| ensures Less(before[i].0, MemberName(list[k])) {
        assert before[i].0 == MemberName(init[i]) == MemberName(list[i]);
      }
      InsertLargest(before, MemberName(list[k]), Map(ToMap(list[k])));
    }
  }

  /** The type ClassPropertyType::resolveDependencies asks the host for, from a raw member record. */
  function RawMemberExportValue(member: Value): ExportValue
  {
    var fields := ToMap(member);
    ExportValue(Get(fields, "value"), ToStr(Get(fields, "type")), ToStr(Get(fields, "propertyType")))
  }

  /** The type after resolveDependencies: every raw member record resolved by the host. */
  function Resolved(t: PropertyType, ctx: ExportContext, types: seq<PropertyType>): (r: PropertyType)
  {
    if t.EnumType? then t
    else t.(members := seq(|t.members|, i requires 0 <= i < |t.members| =>
      (t.members[i].0, ctx.toPropertyValue(types, RawMemberExportValue(t.members[i].1)))))
  }

  /** Resolution only replaces member values: id, name, kind and member keys stay. */
  lemma ResolvedKeepsShape(t: PropertyType, ctx: ExportContext, types: seq<PropertyType>)
    ensures Resolved(t, ctx, types).id == t.id && Resolved(t, ctx, types).name == t.name
    ensures Resolved(t, ctx, types).TypeKind() == t.TypeKind()
    ensures t.ClassType? ==> Keys(Resolved(t, ctx, types).members) == Keys(t.members)
  {
  }

  /** PropertyType::resolveDependencies (a no-op for enums). */
  method ResolveDependencies(t: PropertyType, ctx: ExportContext, types: seq<PropertyType>) returns (r: PropertyType)
    ensures r == Resolved(t, ctx, types)
  {
    if t.EnumType? {
      return t;
    }
    var members := t.members;
    for i := 0 to |members|
      invariant |members| == |t.members|
      invariant forall k :: 0 <= k < i ==>
        members[k] == (t.members[k].0, ctx.toPropertyValue(types, RawMemberExportValue(t.members[k].1)))
      invariant forall k :: i <= k < |members| ==> members[k] == t.members[k]
    {
      var fields := ToMap(members[i].1);
      var exportValue := ExportValue(Get(fields, "value"), ToStr(Get(fields, "type")), ToStr(Get(fields, "propertyType")));
      members := members[i := (members[i].0, ctx.toPropertyValue(types, exportValue))];
    }
    assert members == Resolved(t, ctx, types).members;
    r := t.(members := members);
  }

  // =====================================================================
  // The factory

  /** The type PropertyType::createFromVariant builds from a definition record. */
  function Parsed(variant: Entries<Value>): (r: Option<PropertyType>)
    ensures r.None? <==> TypeFromString(ToStr(Get(variant, "type"))) == Invalid
    ensures r.Some? ==> r.value.id == ToInt(Get(variant, "id"))
    ensures r.Some? ==> r.value.name == ToStr(Get(variant, "name"))
    ensures r.Some? ==> r.value.TypeKind() == TypeFromString(ToStr(Get(variant, "type")))
  {
    var id := ToInt(Get(variant, "id"));
    var name := ToStr(Get(variant, "name"));
    match TypeFromString(ToStr(Get(variant, "type")))
    case Invalid => None
    case Class => Some(ClassType(id, name, MembersFromList([], ToList(Get(variant, "members")))))
    case Enum => Some(EnumFromVariant(EnumType(id, name, StringValue, [], false), variant))
  }

  /** A record with the header and fields of enum t is parsed as t. */
  lemma ParsedEnumRecord(variant: Entries<Value>, t: PropertyType)
    requires t.EnumType?
    requires Get(variant, "type") == Str("enum") && Get(variant, "id") == Int(t.id) && Get(variant, "name") == Str(t.name)
    requires Get(variant, "storageType") == Str(StorageTypeToString(t.storageType))
    requires Get(variant, "values") == StringList(t.values)
    requires Lookup(variant, "valuesAsFlags") == Some(Bool(t.valuesAsFlags))
    ensures Parsed(variant) == Some(t)
  {
    var e := EnumFromVariant(EnumType(t.id, t.name, StringValue, [], false), variant);
    assert TypeFromString(ToStr(Get(variant, "type"))) == Enum;
    assert e.storageType == t.storageType by {
      assert ToStr(Get(variant, "storageType")) == StorageTypeToString(t.storageType);
    }
    assert e.values == t.values;
    assert e.valuesAsFlags == t.valuesAsFlags by {
      assert GetOr(variant, "valuesAsFlags", Bool(false)) == Bool(t.valuesAsFlags);
    }
    assert Parsed(variant) == Some(e);
  }

  /** A record with the header of class t is parsed as a class with t's id and name. */
  lemma ParsedClassRecord(variant: Entries<Value>, t: PropertyType)
    requires t.ClassType?
    requires Get(variant, "type") == Str("class") && Get(variant, "id") == Int(t.id) && Get(variant, "name") == Str(t.name)
    ensures Parsed(variant) == Some(ClassType(t.id, t.name, MembersFromList([], ToList(Get(variant, "members")))))
  {
  }

  function Max(a: int, b: int): int
  {
    if a < b then b else a
  }

  /**
   * PropertyType::createFromVariant.  The static id counter is passed in and
   * returned: it is raised to the new type's id and never lowered.
   */
  method CreateFromVariant(variant: Entries<Value>, nextId: int) returns (propertyType: Option<PropertyType>, newNextId: int)
    ensures propertyType == Parsed(variant)
    ensures propertyType.None? ==> newNextId == nextId
    ensures propertyType.Some? ==> newNextId == Max(nextId, propertyType.value.id)
    ensures newNextId >= nextId
  {
    var id := ToInt(Get(variant, "id"));
    var name := ToStr(Get(variant, "name"));
    var kind := TypeFromString(ToStr(Get(variant, "type")));
    newNextId := nextId;
    match kind {
      case Invalid =>
        propertyType := None;
      case Class =>
        var t := ClassFromVariant(ClassType(id, name, []), variant);
        propertyType := Some(t);
      case Enum =>
        var t := EnumFromVariant(EnumType(id, name, StringValue, [], false), variant);
        propertyType := Some(t);
    }
    if propertyType.Some? {
      newNextId := Max(nextId, id);
    }
  }

  /** An enum definition written by toVariant is read back as the same type. */
  lemma EnumDefinitionRoundTrip(t: PropertyType)
    requires t.EnumType?
    ensures Parsed(EnumToVariant(t)) == Some(t)
  {
    var base := BaseRecord(t);
    BaseRecordFields(t);
    var v1 := Insert(base, "storageType", Str(StorageTypeToString(t.storageType)));
    var v2 := Insert(v1, "values", StringList(t.values));
    var variant := Insert(v2, "valuesAsFlags", Bool(t.valuesAsFlags));
    assert variant == EnumToVariant(t);
    assert Lookup(variant, "type") == Lookup(v2, "type") == Lookup(v1, "type") == Lookup(base, "type");
    assert Lookup(variant, "id") == Lookup(v2, "id") == Lookup(v1, "id") == Lookup(base, "id");
    assert Lookup(variant, "name") == Lookup(v2, "name") == Lookup(v1, "name") == Lookup(base, "name");
    assert Lookup(variant, "storageType") == Lookup(v2, "storageType") == Lookup(v1, "storageType");
    assert Lookup(variant, "values") == Lookup(v2, "values");
    ParsedEnumRecord(variant, t);
  }

  /** The header every definition record starts with. */
  lemma BaseRecordFields(t: PropertyType)
    ensures Lookup(BaseRecord(t), "type") == Some(Str(TypeToString(t.TypeKind())))
    ensures Lookup(BaseRecord(t), "id") == Some(Int(t.id))
    ensures Lookup(BaseRecord(t), "name") == Some(Str(t.name))
  {
    var v1 := Insert([], "type", Str(TypeToString(t.TypeKind())));
    var v2 := Insert(v1, "id", Int(t.id));
    assert Lookup(v2, "type") == Lookup(v1, "type");
    assert BaseRecord(t) == Insert(v2, "name", Str(t.name));
  }

  /**
   * A class definition written by toVariant is read back with the same id,
   * name and member names; once resolved, every member holds what the host
   * makes of the export of the original member value.
   */
  lemma ClassDefinitionRoundTrip(t: PropertyType, ctx: ExportContext, types: seq<PropertyType>)
    requires t.ClassType? && Sorted(t.members)
    ensures var parsed := Parsed(Insert(BaseRecord(t), "members", List(MemberRecords(t.members, ctx))));
      && parsed.Some? && parsed.value.ClassType?
      && parsed.value.id == t.id && parsed.value.name == t.name
      && Keys(parsed.value.members) == Keys(t.members)
      && forall i :: 0 <= i < |t.members| ==>
           Resolved(parsed.value, ctx, types).members[i].1 == ctx.toPropertyValue(types, ctx.toExportValue(t.members[i].1))
  {
    var variant := Insert(BaseRecord(t), "members", List(MemberRecords(t.members, ctx)));
    BaseRecordFields(t);
    assert Lookup(variant, "type") == Lookup(BaseRecord(t), "type");
    assert Lookup(variant, "id") == Lookup(BaseRecord(t), "id");
    assert Lookup(variant, "name") == Lookup(BaseRecord(t), "name");
    ClassRecordRoundTrip(variant, t, ctx, types);
  }

  lemma ClassRecordRoundTrip(variant: Entries<Value>, t: PropertyType, ctx: ExportContext, types: seq<PropertyType>)
    requires t.ClassType? && Sorted(t.members)
    requires Get(variant, "type") == Str("class") && Get(variant, "id") == Int(t.id) && Get(variant, "name") == Str(t.name)
    requires Get(variant, "members") == List(MemberRecords(t.members, ctx))
    ensures Parsed(variant).Some? && Parsed(variant).value.ClassType?
    ensures Parsed(variant).value.id == t.id && Parsed(variant).value.name == t.name
    ensures Keys(Parsed(variant).value.members) == Keys(t.members)
    ensures forall i :: 0 <= i < |t.members| ==>
      Resolved(Parsed(variant).value, ctx, types).members[i].1 == ctx.toPropertyValue(types, ctx.toExportValue(t.members[i].1))
  {
    ParsedClassRecord(variant, t);
    var m := MembersFromList([], MemberRecords(t.members, ctx));
    MemberRecordsParse(t.members, ctx);
    var parsed := ClassType(t.id, t.name, m);
    assert Parsed(variant) == Some(parsed);
    var resolved := Resolved(parsed, ctx, types).members;
    forall i | 0 <= i < |t.members|
      ensures resolved[i].1 == ctx.toPropertyValue(types, ctx.toExportValue(t.members[i].1))
    {
      assert resolved[i].1 == ctx.toPropertyValue(types, RawMemberExportValue(m[i].1));
    }
  }

  /** Reading back the member records of a sorted member map files every member under its name. */
  lemma MemberRecordsParse(members: Entries<Value>, ctx: ExportContext)
    requires Sorted(members)
    ensures var m := MembersFromList([], MemberRecords(members, ctx));
      && |m| == |members| && Keys(m) == Keys(members)
      && forall i :: 0 <= i < |members| ==> m[i].0 == members[i].0 && RawMemberExportValue(m[i].1) == ctx.toExportValue(members[i].1)
  {
    var records := MemberRecords(members, ctx);
    forall i | 0 <= i < |members|
      ensures MemberName(records[i]) == members[i].0
      ensures RawMemberExportValue(Map(ToMap(records[i]))) == ctx.toExportValue(members[i].1)
    {
      MemberRecordFields(members[i].0, members[i].1, ctx);
    }
    RecordsParse(members, records, ctx);
  }

  /** MemberRecordsParse for any records that name the members in order and carry their values. */
  lemma RecordsParse(members: Entries<Value>, records: seq<Value>, ctx: ExportContext)
    requires Sorted(members) && |records| == |members|
    requires forall i :: 0 <= i < |members| ==> MemberName(records[i]) == members[i].0
    requires forall i :: 0 <= i < |members| ==> RawMemberExportValue(Map(ToMap(records[i]))) == ctx.toExportValue(members[i].1)
    ensures var m := MembersFromList([], records);
      && |m| == |members| && Keys(m) == Keys(members)
      && forall i :: 0 <= i < |members| ==> m[i].0 == members[i].0 && RawMemberExportValue(m[i].1) == ctx.toExportValue(members[i].1)
  {
    assert NamesIncrease(records) by {
      forall i, j | 0 <= i < j < |records| ensures Less(MemberName(records[i]), MemberName(records[j])) {
        assert Less(members[i].0, members[j].0);
      }
    }
    MembersFromSortedRecords(records);
    KeysMatch(MembersFromList([], records), members);
  }

  // =====================================================================
  // canAddMemberOfType

  /** The registry position of the custom type a member value is wrapped with, or -1. */
  function NestedIndex(types: seq<PropertyType>, member: Value): (r: int)
    ensures -1 <= r < |types|
  {
    if member.Wrapped? then IndexOfKey(types, ById(member.typeId)) else -1
  }

  /**
   * `rank` orders the registry so that the custom type of every class member
   * ranks below the class: the class graph is acyclic.
   */
  ghost predicate Ranked(types: seq<PropertyType>, rank: seq<nat>)
  {
    && |rank| == |types|
    && forall i, j ::
         (0 <= i < |types| && types[i].ClassType? && 0 <= j < |types[i].members| &&
          NestedIndex(types, types[i].members[j].1) >= 0) ==>
         rank[NestedIndex(types, types[i].members[j].1)] < rank[i]
  }

  /**
   * ClassPropertyType::canAddMemberOfType: can a member of the type at
   * registry position k be added to class `self`?  (`self` is identified by
   * its id.)
   */
  function CanAddMemberOfType(types: seq<PropertyType>, ghost rank: seq<nat>, self: PropertyType, k: nat): bool
    requires Ranked(types, rank) && k < |types|
    decreases rank[k]
  {
    var candidate := types[k];
    if candidate.id == self.id then false        // the class itself is refused
    else if !candidate.ClassType? then true      // a non-class type is always accepted
    else forall j :: 0 <= j < |candidate.members| && NestedIndex(types, candidate.members[j].1) >= 0 ==>
      CanAddMemberOfType(types, rank, self, NestedIndex(types, candidate.members[j].1))
  }

  /** Class a has a member of the custom type at position b. */
  ghost predicate Refers(types: seq<PropertyType>, a: nat, b: nat)
    requires a < |types|
  {
    types[a].ClassType? &&
    exists j :: 0 <= j < |types[a].members| && NestedIndex(types, types[a].members[j].1) == b
  }

  /** A chain of member references through the registry. */
  ghost predicate MemberPath(types: seq<PropertyType>, path: seq<nat>)
  {
    && |path| >= 1
    && (forall s :: 0 <= s < |path| ==> path[s] < |types|)
    && forall s :: 0 <= s < |path| - 1 ==> Refers(types, path[s], path[s + 1])
  }

  /** Some chain of member types leads from position k to a type with self's id. */
  ghost predicate ReachesSelf(types: seq<PropertyType>, self: PropertyType, k: nat)
  {
    exists path :: MemberPath(types, path) && path[0] == k && types[path[|path| - 1]].id == self.id
  }

  /** A refused candidate reaches a type with self's id. */
  lemma {:induction false} RefusedHasPath(types: seq<PropertyType>, rank: seq<nat>, self: PropertyType, k: nat)
    requires Ranked(types, rank) && k < |types|
    requires !CanAddMemberOfType(types, rank, self, k)
    ensures ReachesSelf(types, self, k)
    decreases rank[k]
  {
    if types[k].id == self.id {
      assert MemberPath(types, [k]);
    } else {
      var c := types[k];
      var j :| 0 <= j < |c.members| && NestedIndex(types, c.members[j].1) >= 0 &&
        !CanAddMemberOfType(types, rank, self, NestedIndex(types, c.members[j].1));
      var b := NestedIndex(types, c.members[j].1);
      RefusedHasPath(types, rank, self, b);
      assert Refers(types, k, b);
      ExtendReach(types, self, k, b);
    }
  }

  /** A class with a member of a type that reaches self reaches self too. */
  lemma ExtendReach(types: seq<PropertyType>, self: PropertyType, k: nat, b: nat)
    requires k < |types| && Refers(types, k, b) && ReachesSelf(types, self, b)
    ensures ReachesSelf(types, self, k)
  {
    var tail :| MemberPath(types, tail) && tail[0] == b && types[tail[|tail| - 1]].id == self.id;
    PrependPath(types, k, tail);
    var path := [k] + tail;
    assert path[|path| - 1] == tail[|tail| - 1];
    assert MemberPath(types, path) && path[0] == k && types[path[|path| - 1]].id == self.id;
  }

  lemma PrependPath(types: seq<PropertyType>, k: nat, tail: seq<nat>)
    requires MemberPath(types, tail) && k < |types| && Refers(types, k, tail[0])
    ensures MemberPath(types, [k] + tail)
  {
    var path := [k] + tail;
    forall s | 0 <= s < |path| - 1 ensures Refers(types, path[s], path[s + 1]) {
      if s > 0 {
        assert path[s] == tail[s - 1] && path[s + 1] == tail[s];
      }
    }
  }

  /** A candidate that reaches a type with self's id is refused. */
  lemma {:induction false} PathIsRefused(types: seq<PropertyType>, rank: seq<nat>, self: PropertyType, path: seq<nat>)
    requires Ranked(types, rank) && MemberPath(types, path) && types[path[|path| - 1]].id == self.id
    ensures !CanAddMemberOfType(types, rank, self, path[0])
    decreases |path|
  {
    if |path| > 1 && types[path[0]].id != self.id {
      var tail := path[1..];
      assert MemberPath(types, tail) by {
        forall s | 0 <= s < |tail| - 1 ensures Refers(types, tail[s], tail[s + 1]) {
          assert tail[s] == path[s + 1] && tail[s + 1] == path[s + 2];
        }
      }
      PathIsRefused(types, rank, self, tail);
      assert Refers(types, path[0], path[1]);
    }
  }

  /**
   * The check fails exactly when the candidate reaches, through a chain of
   * member types, a type with self's id (the candidate itself included).
   */
  lemma CanAddIffNoPath(types: seq<PropertyType>, rank: seq<nat>, self: PropertyType, k: nat)
    requires Ranked(types, rank) && k < |types|
    ensures !CanAddMemberOfType(types, rank, self, k) <==>
      exists path :: MemberPath(types, path) && path[0] == k && types[path[|path| - 1]].id == self.id
  {
    if !CanAddMemberOfType(types, rank, self, k) {
      RefusedHasPath(types, rank, self, k);
    }
    forall path | MemberPath(types, path) && path[0] == k && types[path[|path| - 1]].id == self.id
      ensures !CanAddMemberOfType(types, rank, self, k)
    {
      PathIsRefused(types, rank, self, path);
    }
  }
}
