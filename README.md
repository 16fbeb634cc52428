# Tiled: custom property types, inherited properties, layer commands and polygon node editing

This project models four parts of the Tiled map editor and proves properties of the model:

- **Custom property types** (`src/libtiled/propertytype.cpp`). Enum and class types convert values between their stored form and their export form. Their definitions are written to a record and read back. The factory builds a type from a record and raises the id counter. The registry counts types, finds them by id or name, and loads them in two passes (parse every record, then resolve the class members). `canAddMemberOfType` stops a class from containing itself. Modules: `PropertyTypeSystem` (`propertytype.dfy`) and `PropertyRegistry` (`propertytypes.dfy`).
- **Objects** (`src/libtiled/object.cpp`). A property is looked up along a chain: the object's own, then the template object's, then the tile's, then the object type's defaults. The merged property map is built in the reverse order. Each object also has a component map and its edits, and `commonComponents` counts component names across objects. Module: `TiledObject` (`object.dfy`).
- **Layer commands** (`src/tiled/changelayer.h`). `ChangeValueCommand` swaps a stored value with a layer's value on undo and on redo. Two commands merge on the same document and layer. The id each command subclass reports decides which commands the undo stack offers to merge. Module: `LayerCommands` (`changelayer.dfy`).
- **Polygon node editing** (`src/tiled/editpolygontool.cpp`). The model covers:
  - grouping the selected handles by object into range sets;
  - node deletion, back to front;
  - `joinPolygonNodes` and `splitPolygonSegments`;
  - the `canDeleteSegment` condition and the rotation done by `deleteSegment`.

  Modules: `PolygonEditing` (`editpolygon.dfy`) and `RangeSets` (`rangeset.dfy`).

Two support modules sit under these:
- `Variant` (`variant.dfy`) models the Qt values: a `Value` datatype standing for QVariant, and QMap as a key-sorted list of entries with its insert and lookup.
- `Bits` (`bits.dfy`) holds the bit arithmetic behind enum flags: `Bit(x, i)` is bit i of an unbounded integer and `SetBit` is `x | (1 << i)`.

How the source maps onto Dafny:
- **Which construct.** Pure conversions and lookups become functions. Loops in the source become methods with loop invariants, each proved equal to a specification function. Objects whose fields the source updates become classes: `Object`, `PropertyTypes`, `ChangeValueCommand` and `Layer`.
- **Host code.** The host's `ExportContext` conversions are opaque function-valued fields of `ExportContext`.
- **Points.** A point is a type parameter. Averaging and taking a midpoint are parameters, because only the structure of an edited polygon is at stake.
- **Global state.** The static id counter `PropertyType::nextId` and the static `Object::mObjectTypes` are passed in and out explicitly.

Where the code does something other than its documentation or comments suggest, the model follows the code:
- `ClassPropertyType::toPropertyValue` keeps a member that the class no longer declares, with its value unconverted (the `continue` at line 271). It does not drop it.
- `createFromVariant` takes the id from the record and raises `nextId` to it. It does not assign a fresh id.
- `resolvedProperties` keeps the precedence of `resolvedProperty` (the comment at `object.cpp:113-115`) only when object type names are distinct. `DuplicateTypeNamesDisagree` gives an object for which the two disagree. `ResolvedPropertiesFirstWins` is the corrected version (see Findings).

## Model

| member | source | states |
|---|---|---|
| PropertyTypeSystem.TypeFromString | src/libtiled/propertytype.cpp:113-120 | "enum" and the empty string give Enum, "class" gives Class, and anything else gives Invalid |
| PropertyTypeSystem.KindStringRoundTrip | src/libtiled/propertytype.cpp:122-133 | `TypeToString`, the model of typeToString, never returns ""; typeFromString maps every name it writes back to the same kind |
| PropertyTypeSystem.StorageTypeFromString | src/libtiled/propertytype.cpp:225-230 | a definition gets int storage exactly for "int", and string storage for anything else |
| PropertyTypeSystem.StorageTypeRoundTrip | src/libtiled/propertytype.cpp:232-241 | storageTypeFromString inverts `StorageTypeToString`, the model of storageTypeToString |
| PropertyTypeSystem.EnumToExportValue | src/libtiled/propertytype.cpp:137-163 | the export is the host export of the translated value (see EnumExportCases), stamped with the enum's name |
| PropertyTypeSystem.EnumExportCases | src/libtiled/propertytype.cpp:137-163 | int storage, a non-int value or an index out of range is exported unchanged; a valid index exports its name; a flag mask exports the ','-joined names of its set bits, which is "" exactly when no bit below the name count is set |
| PropertyTypeSystem.FlagsTextIsJoin | src/libtiled/propertytype.cpp:145-154 | with non-empty names, the flag loop writes the names of the set bits in ascending index order, separated by ',' |
| PropertyTypeSystem.FlagsTextEmpty | src/libtiled/propertytype.cpp:145-154 | the flag text is empty exactly when no bit among 0..n-1 is set |
| PropertyTypeSystem.IndexOf | src/libtiled/propertytype.cpp:196 | the first index of the name, or -1 exactly when the name is absent |
| PropertyTypeSystem.ImportedEnumValue | src/libtiled/propertytype.cpp:165-202 | every import result is wrapped with the enum's id |
| PropertyTypeSystem.EnumToPropertyValue | src/libtiled/propertytype.cpp:165-202 | the split-and-look-up loop, with its early return on an unknown name, computes the import specification |
| PropertyTypeSystem.FlagsFromUnknown | src/libtiled/propertytype.cpp:186-188 | the flag loop gives up as soon as a name is not an enum value |
| PropertyTypeSystem.FlagsFromKnown | src/libtiled/propertytype.cpp:182-193 | the flag loop produces a mask whenever every name is an enum value |
| PropertyTypeSystem.UnknownFlagKeepsString | src/libtiled/propertytype.cpp:182-188 | a flags string with one unknown name is kept as the wrapped original string |
| PropertyTypeSystem.KnownFlagsBecomeMask | src/libtiled/propertytype.cpp:182-193 | a flags string of known names becomes a wrapped int whose bit i is set exactly when some name has index i |
| PropertyTypeSystem.FlagsFromBits | src/libtiled/propertytype.cpp:182-191 | the flag loop sets exactly the bits it starts with plus the bits of the names it reads |
| PropertyTypeSystem.NonStringEnumImport | src/libtiled/propertytype.cpp:201 | a value that is not a string is only wrapped |
| PropertyTypeSystem.EnumNameImport | src/libtiled/propertytype.cpp:196-201 | outside flags mode a known name becomes its first index, and an unknown name stays a wrapped string |
| PropertyTypeSystem.SplitJoin | src/libtiled/propertytype.cpp:174-180 | splitting on ',' and skipping empty parts gives back names that were joined, when the names are non-empty and contain no ',' |
| PropertyTypeSystem.FlagsFromNames | src/libtiled/propertytype.cpp:182-193 | importing the names of the set bits among 0..k-1 rebuilds x mod 2^k |
| PropertyTypeSystem.EnumIndexRoundTrip | src/libtiled/propertytype.cpp:157-198 | with string storage and distinct names, exporting a valid index and importing the result gives the wrapped index |
| PropertyTypeSystem.EnumFlagsRoundTrip | src/libtiled/propertytype.cpp:145-193 | with string storage and distinct non-empty names without ',', a mask below 2^n, the empty mask included, survives export and import |
| PropertyTypeSystem.IndexOfKey | src/libtiled/propertytype.cpp:388-406 | the one first-match search of findTypeById and findTypeByName: the position of the first type with the id or name, or -1 when none has it |
| PropertyTypeSystem.ClassToExportValue | src/libtiled/propertytype.cpp:245-259 | the export is the host export of the map whose member values are replaced by their own host exports; the member keys are kept |
| PropertyTypeSystem.ToExportValue | src/libtiled/propertytype.cpp:57-62 | every export, of either kind, is stamped with the type's name |
| PropertyTypeSystem.ClassImportShape | src/libtiled/propertytype.cpp:261-286 | the import is a map wrapped with the class id that has the input's keys in order; an undeclared key keeps its value; a declared plain member is converted with the member's type as hint |
| PropertyTypeSystem.ClassToPropertyValue | src/libtiled/propertytype.cpp:261-286 | the loop over the map copy computes the class import specification |
| PropertyTypeSystem.MemberToPropertyValue | src/libtiled/propertytype.cpp:269-282 | one member: left alone when removed, otherwise converted, and imported again by its custom type when the registry has that type |
| PropertyTypeSystem.ImportedValue | src/libtiled/propertytype.cpp:276-280 | a nested import through either kind is wrapped with that type's id |
| PropertyTypeSystem.ToPropertyValue | src/libtiled/propertytype.cpp:276-280 | dispatching on the kind computes the import specification |
| PropertyTypeSystem.DefaultValueRoundTrip | src/libtiled/propertytype.cpp:204-207 | the enum default is 0 and, with string storage and distinct names, survives export and import; the class default is the empty map and imports as itself, wrapped (see also lines 288-291) |
| PropertyTypeSystem.BaseRecordFields | src/libtiled/propertytype.cpp:69-76 | a definition record holds the kind name, the id and the name |
| PropertyTypeSystem.MemberToVariant | src/libtiled/propertytype.cpp:301-310 | one member record is built from the host export of the member value |
| PropertyTypeSystem.MembersToVariant | src/libtiled/propertytype.cpp:295-313 | the loop writes one record per member, in the map's key order |
| PropertyTypeSystem.ClassToVariant | src/libtiled/propertytype.cpp:293-318 | the class record is the header plus the list of member records |
| PropertyTypeSystem.ToVariant | src/libtiled/propertytype.cpp:209-216 | an enum record adds storage type, values and flag mode to the header; a class record adds its members |
| PropertyTypeSystem.MemberRecordFields | src/libtiled/propertytype.cpp:303-310 | a member record has the member's name, the export's type and value, and a "propertyType" field, holding the custom type's name, exactly when the export names one |
| Variant.StringToBool | src/libtiled/propertytype.cpp:222 | a string reads as false exactly when it is empty, "0" or "false" with any of its letters upper case |
| PropertyTypeSystem.EnumDefinitionDefaults | src/libtiled/propertytype.cpp:218-230 | `EnumFromVariant`, the model of EnumPropertyType::fromVariant: storage is int exactly for "int", flags mode is off when the record has no "valuesAsFlags", a "valuesAsFlags" string "False" reads as off, and id and name are untouched |
| PropertyTypeSystem.ClassFromVariant | src/libtiled/propertytype.cpp:320-329 | every record of the members list is inserted, in order, under its name, as its raw map |
| PropertyTypeSystem.MembersFromSortedRecords | src/libtiled/propertytype.cpp:320-329 | records whose names increase are filed in list order, each under its own name |
| PropertyTypeSystem.ResolveDependencies | src/libtiled/propertytype.cpp:331-343 | each raw member record is replaced by the host's resolution of its value, type and propertyType fields; an enum is unchanged |
| PropertyTypeSystem.ResolvedKeepsShape | src/libtiled/propertytype.cpp:331-343 | resolution keeps the id, name and kind, and the member keys |
| PropertyTypeSystem.Parsed | src/libtiled/propertytype.cpp:85-111 | the factory gives no type exactly for an Invalid kind; otherwise the type has the record's id, name and kind |
| PropertyTypeSystem.CreateFromVariant | src/libtiled/propertytype.cpp:85-111 | the factory result is as specified; the counter stays when no type is made and becomes max(nextId, id) when one is, so it never decreases |
| PropertyTypeSystem.ParsedEnumRecord | src/libtiled/propertytype.cpp:218-223 | a record with an enum's header and fields is parsed as that enum |
| PropertyTypeSystem.ParsedClassRecord | src/libtiled/propertytype.cpp:96-106 | a record with a class header is parsed as a class with that id and name and the raw member records |
| PropertyTypeSystem.EnumDefinitionRoundTrip | src/libtiled/propertytype.cpp:209-223 | the record toVariant writes for an enum is read back as the same enum |
| PropertyTypeSystem.ClassDefinitionRoundTrip | src/libtiled/propertytype.cpp:293-343 | a class record written and read back has the same id, name and member names; once resolved, each member holds the host's resolution of the export of its original value |
| PropertyTypeSystem.ClassRecordRoundTrip | src/libtiled/propertytype.cpp:320-343 | any record with a class header and the member records of a sorted member map parses to a class with that id, name and member names, and resolution turns each member into the host's import of its export |
| PropertyTypeSystem.MemberRecordsParse | src/libtiled/propertytype.cpp:320-329 | reading back the member records of a sorted member map files every member under its name with the fields of its export |
| PropertyTypeSystem.RefusedHasPath | src/libtiled/propertytype.cpp:345-368 | a refused candidate reaches a type with the class's id through a chain of member types |
| PropertyTypeSystem.PathIsRefused | src/libtiled/propertytype.cpp:345-368 | a candidate with such a chain is refused |
| PropertyTypeSystem.CanAddIffNoPath | src/libtiled/propertytype.cpp:345-368 | `CanAddMemberOfType`, the model of canAddMemberOfType, is false exactly when the candidate, itself included, reaches a type with the class's id through member types |
| PropertyRegistry.CountOfKind | src/libtiled/propertytype.cpp:377-382 | the count is the number of registry positions holding that kind |
| PropertyRegistry.CountsPartition | src/libtiled/propertytype.cpp:377-382 | no registered type is Invalid; enum and class counts add up to the registry size |
| PropertyRegistry.PropertyTypes.Count | src/libtiled/propertytype.cpp:377-382 | count(kind) is the number of types of that kind |
| PropertyRegistry.PropertyTypes.FindTypeById | src/libtiled/propertytype.cpp:388-394 | nothing exactly when no type has the id, otherwise the first type that has it |
| PropertyRegistry.PropertyTypes.FindTypeByName | src/libtiled/propertytype.cpp:400-406 | nothing exactly when no type has the name, otherwise the first type that has it |
| PropertyRegistry.FindsEveryType | src/libtiled/propertytype.cpp:388-394 | with distinct ids, every registered type is found by its id |
| PropertyRegistry.PropertyTypes.LoadFrom | src/libtiled/propertytype.cpp:408-420 | the registry is cleared, then holds one type per accepted record in list order, each resolved against the registry at that moment; the counter ends where the factory calls leave it |
| PropertyRegistry.PropertyTypes.ResolveAll | src/libtiled/propertytype.cpp:418-419 | every type is resolved in registry order against the registry as it stands, keeping id, name and kind |
| PropertyRegistry.ParsedAllAccepted | src/libtiled/propertytype.cpp:414-416 | at most one type per record, and exactly the parsed records in order when every record has a valid kind |
| PropertyRegistry.NextIdBounds | src/libtiled/propertytype.cpp:107 | after a load the counter is at or above its old value and every loaded id |
| TiledObject.Object.ResolvedProperty | src/libtiled/object.cpp:66-108 | the object's own property wins; an object that is neither map object nor tile gives the invalid value for anything else |
| TiledObject.Object.ResolvedProperties | src/libtiled/object.cpp:110-154 | as written: the loop merges the defaults of every object type of the effective name in registration order, then the tile's, the template object's and the object's own properties |
| TiledObject.Object.ResolvedPropertiesFirstWins | src/libtiled/object.cpp:110-154 | corrected: the same merges, with the object types visited from last to first so that the first type of the name wins |
| TiledObject.Object.MergeInherited | src/libtiled/object.cpp:141-151 | the tile's, the template object's and the own properties are merged, in that order, over the type defaults |
| TiledObject.FirstWinsDefaultsAgree | src/libtiled/object.cpp:99-105 | the first-wins merge of the type defaults answers like resolvedProperty's first-match search, for any type names |
| TiledObject.ResolvedPropertiesFirstWinsAgree | src/libtiled/object.cpp:113-115 | the corrected merged map holds, for every key, what resolvedProperty returns, duplicate type names included |
| TiledObject.ResolvedPropertiesAgree | src/libtiled/object.cpp:113-115 | with distinct object type names, every key of the merged map holds what resolvedProperty returns for it |
| TiledObject.InheritedAgree | src/libtiled/object.cpp:141-151 | for a map object, the merged value is the own, else the template's, else the tile's, else the type default |
| TiledObject.TypeDefaultsAgree | src/libtiled/object.cpp:134-139 | with distinct type names, the merged defaults answer like the first-match search at lines 99-105 |
| TiledObject.TypeDefaultTail | src/libtiled/object.cpp:99-105 | the first-match search over a list extended by one type |
| TiledObject.NoDefaultDefined | src/libtiled/object.cpp:99-107 | when no type of the name defines the property, the search gives the invalid value |
| TiledObject.DuplicateTypeNamesDisagree | src/libtiled/object.cpp:134-139 | with two object types of the same name, resolvedProperty takes the first default and resolvedProperties as written the last; the corrected merge takes the first |
| TiledObject.MergeLookup | src/libtiled/object.cpp:137 | after a merge, a key takes the source's value when the source has it, else the target's |
| TiledObject.Object.AddComponent | src/libtiled/object.cpp:156-159 | the component entry for the name is replaced as a whole; nothing else changes |
| TiledObject.Object.SetComponentProperty | src/libtiled/object.cpp:161-167 | the component map becomes WithComponentProperty of the old one; properties and role are unchanged |
| TiledObject.WithComponentProperty | src/libtiled/object.cpp:161-167 | an unknown component name changes nothing; a known one gets the property set; every other component is unchanged |
| TiledObject.Object.MergeComponents | src/libtiled/object.cpp:44-54 | the loop merges each given component, in order, into the existing one or an empty one |
| TiledObject.MergedComponentsKeys | src/libtiled/object.cpp:44-54 | after merging, the component names are the old ones plus the given ones |
| TiledObject.MergedComponentsKeep | src/libtiled/object.cpp:44-54 | a component that is not given is left exactly as it was |
| TiledObject.GivenPropertyWins | src/libtiled/object.cpp:52 | a property of the last given copy of a component ends up with the given value |
| TiledObject.GivenComponentMerged | src/libtiled/object.cpp:44-54 | every given component ends up as its old properties, or none, with the given ones merged over them |
| TiledObject.MergedComponentProperty | src/libtiled/object.cpp:48-52 | in a given component, a property takes the given value when the given copy has it, and keeps its old value otherwise |
| TiledObject.ObjectTypeProperties | src/libtiled/object.cpp:174-182 | the defaults of the first object type with the name, or the empty map when no type has it |
| TiledObject.Occurrences | src/libtiled/object.cpp:201-207 | the count is the number of objects with the component; it equals the object count exactly when all have it and is 0 exactly when none has it |
| TiledObject.CommonComponents | src/libtiled/object.cpp:189-219 | nothing for no objects; otherwise the names every object has, or, inverted, the object type names no object has |
| TiledObject.CountAll | src/libtiled/object.cpp:196-207 | the count map holds the type names and every component name, each with its number of objects |
| TiledObject.SeedCounts | src/libtiled/object.cpp:198-199 | every object type name starts with count 0 |
| TiledObject.CountComponents | src/libtiled/object.cpp:202-206 | one object adds 1 to the count of each of its component names |
| TiledObject.KeysWithCount | src/libtiled/object.cpp:209-216 | the names whose count equals the target |
| LayerCommands.ParallaxIdCollides | src/tiled/changelayer.h:193 | `CommandIdAsWritten`, the id() of each command as written: the parallax command reports the offset command's id |
| LayerCommands.CommandIdsIdentifyProperty | src/tiled/changelayer.h:91-193 | with `CommandIdOf`, the corrected ids, two commands report the same id (other than -1) exactly when they change the same property |
| LayerCommands.Swap | src/tiled/changelayer.h:52-53 | the layer gets the stored value, the command keeps the previous one, and every other property is unchanged |
| LayerCommands.SwapTwice | src/tiled/changelayer.h:52-53 | redo followed by undo restores both the layer and the stored value |
| LayerCommands.ChangeValueCommand.constructor | src/tiled/changelayer.h:41-50 | the constructor only stores the document, target and value; the command is not obsolete |
| LayerCommands.ChangeValueCommand.Redo | src/tiled/changelayer.h:53 | redo is the swap of the stored value with the layer's value |
| LayerCommands.ChangeValueCommand.Undo | src/tiled/changelayer.h:52 | undo is the same swap |
| LayerCommands.ChangeValueCommand.MergeWith | src/tiled/changelayer.h:55-68 | the merge is accepted exactly for the same document and layer; the stored value is kept; on a merge the command becomes obsolete exactly when the layer holds the stored value again |
| LayerCommands.ObsoleteMeansNoChange | src/tiled/changelayer.h:63 | after a merge, the obsolete test holds exactly when the two commands together left the layer as it was |
| LayerCommands.ParallaxChangeSurvivesUndo | src/tiled/changelayer.h:185-193 | as written, a parallax change merged into an offset command survives undoing that command |
| LayerCommands.MergedUndoRestores | src/tiled/changelayer.h:55-68 | with the corrected ids, undoing a merged command restores the layer exactly |
| RangeSets.Insert | src/tiled/editpolygontool.cpp:636 | inserting an index keeps a valid range set whose indexes are the old ones plus the new one |
| PolygonEditing.GroupIndexesByObject | src/tiled/editpolygontool.cpp:628-640 | every object with a selected handle gets a valid range set holding exactly its selected indexes |
| PolygonEditing.DeleteNodes | src/tiled/editpolygontool.cpp:662-678 | the back-to-front removal leaves exactly the unselected points in order; with fewer than 2 points left the object is removed |
| PolygonEditing.RemoveRange | src/tiled/editpolygontool.cpp:666-669 | one pass removes the range before the loop index |
| PolygonEditing.RemovedIsUnselected | src/tiled/editpolygontool.cpp:662-669 | removing the ranges leaves the points whose index is not selected, in order |
| PolygonEditing.DeletedNodesSize | src/tiled/editpolygontool.cpp:662-671 | the remaining polygon loses exactly the selected points |
| PolygonEditing.JoinPolygonNodes | src/tiled/editpolygontool.cpp:691-757 | the method computes the join specification (no ranges, fewer than 3 points, or one range over everything: unchanged) |
| PolygonEditing.JoinedPlainCase | src/tiled/editpolygontool.cpp:716-719 | without the wrap-around join, the join is the back-to-front pass over every range of the whole polygon |
| PolygonEditing.JoinedWrapCase | src/tiled/editpolygontool.cpp:721-740 | the three edits of the first and last range leave their joint average at index 0, followed by the points between them |
| PolygonEditing.JoinRanges | src/tiled/editpolygontool.cpp:743-754 | the loop collapses the remaining ranges back to front, each at indexOffset places lower, to the average of its own points (line 749 corrected) |
| PolygonEditing.JoinRange | src/tiled/editpolygontool.cpp:744-753 | one pass, the remove and replace at the offset index, collapses one range to the average of its own points (line 749 corrected) |
| PolygonEditing.JoinPass | src/tiled/editpolygontool.cpp:752-753 | the remove and replace at the offset index collapse one range to the average of its own points (line 749 corrected) |
| PolygonEditing.JoinedSize | src/tiled/editpolygontool.cpp:684-689 | the join keeps n points in the unchanged cases, n minus the surplus in the ordinary case, and one fewer in the wrap-around case |
| PolygonEditing.WrapJoinedSize | src/tiled/editpolygontool.cpp:721-740 | the wrap-around join loses every range's surplus and one more point |
| PolygonEditing.JoinRecordsChange | src/tiled/editpolygontool.cpp:825 | joinNodes records a change exactly when some range has two nodes or the wrap-around ranges are merged |
| PolygonEditing.JoinAsWrittenReadsShiftedPoints | src/tiled/editpolygontool.cpp:749 | `JoinedAsWritten`, the model of joinPolygonNodes as written: on a concrete closed polygon it averages the wrong points of a later range |
| PolygonEditing.SplitPolygonSegments | src/tiled/editpolygontool.cpp:766-802 | the method computes the split specification |
| PolygonEditing.SplitStart | src/tiled/editpolygontool.cpp:781-790 | the closing midpoint is appended exactly when the polygon is closed and its first and last nodes are selected |
| PolygonEditing.SplitRanges | src/tiled/editpolygontool.cpp:792-799 | the outer loop splits the ranges back to front |
| PolygonEditing.SplitRange | src/tiled/editpolygontool.cpp:793-798 | one pass of the outer loop splits the range before the loop index |
| PolygonEditing.SplitStep | src/tiled/editpolygontool.cpp:793-798 | before a pass the points up to the range's end are the polygon's; after it they are interleaved with midpoints |
| PolygonEditing.InsertMidpoints | src/tiled/editpolygontool.cpp:795-798 | the inner loop inserts the midpoint of each pair of consecutive selected nodes between them |
| PolygonEditing.MidpointStep | src/tiled/editpolygontool.cpp:796-797 | one insert puts the midpoint of nodes i-1 and i between them |
| PolygonEditing.InterleavePositions | src/tiled/editpolygontool.cpp:795-797 | original points keep their order at even positions, and midpoints of neighbours sit between them |
| PolygonEditing.SplittedSize | src/tiled/editpolygontool.cpp:770-799 | splitting adds one point per selected segment, plus one for the closing segment |
| PolygonEditing.SplitRecordsChange | src/tiled/editpolygontool.cpp:861 | splitSegments records a change exactly when a segment is selected |
| PolygonEditing.CanDeleteSegment | src/tiled/editpolygontool.cpp:601-615 | exactly two handles on one object at the ends of one segment, the closing segment of a polygon included |
| PolygonEditing.Rotated | src/tiled/editpolygontool.cpp:909-913 | the rotation has the polygon's length and reads the polygon from index k on, wrapping around |
| PolygonEditing.DeleteSegment | src/tiled/editpolygontool.cpp:902-914 | the polygon is rotated to start at the larger index unless the indexes are the first and last |
| PolygonEditing.RotateInto | src/tiled/editpolygontool.cpp:908-913 | the two copy loops fill the array with the rotation |
| PolygonEditing.DeletedSegmentIsClosing | src/tiled/editpolygontool.cpp:902-920 | for a deletable segment, the new polygon keeps every point and ends on the two selected points |

## Left out

- I/O, the `path` argument of `loadFrom`, and `qDeleteAll`/`unique_ptr` ownership are left out; they are memory management and path plumbing.
- The host's `ExportContext` conversions are opaque functions supplied by the caller. `PropertyValue::type()` is modelled as the findTypeById lookup (`IndexOfKey` with `ById`) in the `types` registry passed in. `Shrinks` and `PassesStrings` state the two facts the proofs need about the conversions.
- Qt's dynamic typing (`userType()`) is pattern matching on the `Value` datatype. `ToInt` and `ToStr` are projections that do not parse numeric strings. `ToBool` reads a string as false when it is empty, "0" or "false" in any case, with Qt's Unicode lower-casing narrowed to ASCII letters.
- The three Qt-version branches at `propertytype.cpp:174-180` are modelled as one split on ',' that skips empty parts. The `#if` at `changelayer.h:62` is taken as true (Qt 5.9 or later).
- `1 << i` is not modelled with 32-bit overflow: flags are unbounded integers and `SetBit` is the bitwise OR of 2^i.
- EnumFlagsRoundTrip: states the round trip for masks below 2^n on unbounded integers, not for 32-bit masks with more than 31 names.
- CanAddIffNoPath: needs a rank on the registry that decreases along member types, that is, a class graph with no cycle at all. Loading does not guard against cycles. The source's recursion still ends on a cycle that passes through the class being edited, because it meets `propertyType == this` (lines 347-348) and refuses; for example, A with a member of type B and B with a member of type A, with B tested for A. It recurses forever only on a cycle that avoids that class. The rank excludes both kinds, so the model says nothing about the first kind either.
- Pointer identity (`propertyType == this`, `findTypeById` results) is equality of type ids.
- `PropertyTypes::add`, `clear` and the registry's storage are not part of this model except as reassignments of the `types` field.
- QMap keys are ordered by Dafny's character order, which is not QString's locale-free UTF-16 order outside the Basic Multilingual Plane.
- `mergeProperties` (its header is not part of this model) is an insert of every source entry, overwriting.
- ResolvedPropertiesAgree: needs distinct object type names and QMap-shaped maps; DuplicateTypeNamesDisagree shows it fails otherwise, and ResolvedPropertiesFirstWinsAgree drops the distinct names for the corrected merge.
- MergeComponents: stated against the `MergedComponents` function; `MergedComponentsKeys`, `MergedComponentsKeep`, `GivenComponentMerged` and `MergedComponentProperty` describe the result.
- The concrete layer getters and setters in `changelayer.cpp` delegate to the `Layer` setters (not part of this model), emit signals and carry Qt value types. A layer is a map from property to one value type V.
- QUndoStack and `undocommands.h` are not part of this model. The part of the merge protocol that is modelled (same id, not -1, merge after the new command's redo) is written into `Merges` and `UndoAfterMerge`.
- Merges: does not model QUndoStack's further condition that the stack is inside a macro or not at its clean index.
- UndoAfterMerge: does not model QUndoStack dropping a merged command that has become obsolete; `ObsoleteMeansNoChange` shows that such a command leaves the layer as it was.
- Floating-point averaging and midpoints of `QPointF` are parameters; `IntAverage` only serves the counterexample.
- The UI side of the polygon tool is left out: mouse and keyboard handling, handles, painting, menus, undo macros, snapping and screen transforms.
- The polyline branch of `deleteSegment` (lines 887-900) and `SplitPolyline` are left out: they call `deleteNodes` again or push a command that is not part of this model. So is `TogglePolygonPolyline`.
- `rangeset.h` is not part of this model. `RangeSets` models RangeSet<int> from its use: a sorted list of disjoint, non-adjacent closed intervals.
- The loops of `deleteNodes`, `joinPolygonNodes` and `splitPolygonSegments` index the range list instead of moving an iterator. Their bodies are the methods `RemoveRange`, `JoinRange` and `SplitRange`.
- The loop bodies of `ClassPropertyType::toPropertyValue` and `toVariant` are the methods `MemberToPropertyValue` and `MemberToVariant`.
- JoinPolygonNodes: models the corrected averaging of line 749 (see Findings); the code as written is `JoinedAsWritten`. The loop members `JoinRanges`, `JoinRange` and `JoinPass` state the corrected average too.
- ChangeValueCommand.Id: reports the corrected ids of `CommandIdOf`; the ids as written are `CommandIdAsWritten`.

## Findings

| source | as written | input that shows it | evidently intended | confidence | as-written member | corrected member |
|---|---|---|---|---|---|---|
| src/tiled/changelayer.h:193 | `SetLayerParallaxFactor::id()` returns `Cmd_ChangeLayerOffset`, the offset command's id. The undo stack then merges a parallax change into a preceding offset command of the same layer. | Change a layer's offset, then its parallax factor, then undo once: the parallax factor keeps its new value. | An id of its own for the parallax command, so only changes of the same property merge. | not executed | LayerCommands.CommandIdAsWritten, LayerCommands.ParallaxChangeSurvivesUndo | LayerCommands.CommandIdOf, LayerCommands.MergedUndoRestores |
| src/tiled/editpolygontool.cpp:749 | After the wrap-around join, the later ranges average `polygon.at(i - indexOffset)`. These are points of the original polygon at indexes shifted down by indexOffset, not the selected points. | Closed polygon 0, 10, 20, 30, 40, 50, 60 with nodes {0, 1}, {3, 4} and {6} selected: the middle range becomes the average of 20 and 30, not of 30 and 40. | Indexing the original polygon at `i` (or the result at `i - indexOffset`), as the doc comment at lines 684-689 describes. | not executed | PolygonEditing.JoinedAsWritten, PolygonEditing.JoinAsWrittenReadsShiftedPoints | PolygonEditing.Joined, PolygonEditing.JoinPolygonNodes |
| src/libtiled/object.cpp:134-139 | `resolvedProperties` merges the defaults of every object type with the effective name in registration order, so the last such type wins. `resolvedProperty` (lines 99-105) returns the first. The comment at lines 113-115 promises the same precedence. | Two object types named T, the first with default a = 1 and the second with a = 2, and a tile of type T without properties: resolvedProperty("a") gives 1 and resolvedProperties()["a"] gives 2. | Merging the types in reverse order, so the first type of the name wins, as the comment says. | not executed | TiledObject.Object.ResolvedProperties, TiledObject.DuplicateTypeNamesDisagree | TiledObject.Object.ResolvedPropertiesFirstWins, TiledObject.ResolvedPropertiesFirstWinsAgree |
