/**
 * The host's generic value container (QVariant) and its ordered,
 * string-keyed map (QMap<QString, T>), as far as the property system uses them.
 *
 * A QMap keeps its entries sorted by key and iterates in that order, so it is
 * modelled as a key-sorted association sequence.  `Insert` is QMap::insert
 * (replace the value of an existing key, otherwise insert at the sorted place)
 * and `Lookup` is QMap::value with "not found" made explicit.
 */
module Variant {

  datatype Option<T> = None | Some(value: T)

  /** One QMap: (key, value) pairs, meant to be kept sorted by key. */
  type Entries<V> = seq<(string, V)>

  /**
   * A QVariant as the property system sees it.  `Null` is the invalid
   * QVariant(); `Wrapped` is a PropertyValue: a payload together with the id
   * of the custom property type that interprets it.
   */
  datatype Value =
    | Null
    | Bool(b: bool)
    | Int(i: int)
    | Str(s: string)
    | List(items: seq<Value>)
    | Map(entries: Entries<Value>)
    | Wrapped(payload: Value, typeId: int)

  // ---------------------------------------------------------------------
  // Key order (QString::operator<): lexicographic on characters.

  predicate Less(a: string, b: string)
  {
    if |a| == 0 then |b| > 0
    else if |b| == 0 then false
    else if a[0] != b[0] then a[0] < b[0]
    else Less(a[1..], b[1..])
  }

  lemma {:induction false} LessIrreflexive(a: string)
    ensures !Less(a, a)
  {
    if |a| > 0 {
      LessIrreflexive(a[1..]);
    }
  }

  lemma {:induction false} LessTotal(a: string, b: string)
    ensures a == b || Less(a, b) || Less(b, a)
  {
    if |a| > 0 && |b| > 0 && a[0] == b[0] {
      LessTotal(a[1..], b[1..]);
      if a[1..] == b[1..] {
        assert a == [a[0]] + a[1..] && b == [b[0]] + b[1..];
      }
    }
  }

  lemma {:induction false} LessTransitive(a: string, b: string, c: string)
    requires Less(a, b) && Less(b, c)
    ensures Less(a, c)
  {
    if |a| > 0 && a[0] == b[0] && b[0] == c[0] {
      LessTransitive(a[1..], b[1..], c[1..]);
    }
  }

  lemma LessAsymmetric(a: string, b: string)
    requires Less(a, b)
    ensures !Less(b, a) && a != b
  {
    LessIrreflexive(a);
    if Less(b, a) {
      LessTransitive(a, b, a);
    }
  }

  // ---------------------------------------------------------------------
  // Ordered maps.

  /** Keys strictly increasing: the representation invariant of a QMap. */
  ghost predicate Sorted<V>(m: Entries<V>)
  {
    forall i, j :: 0 <= i < j < |m| ==> Less(m[i].0, m[j].0)
  }

  function Keys<V>(m: Entries<V>): seq<string>
  {
    seq(|m|, i requires 0 <= i < |m| => m[i].0)
  }

  lemma KeysMatch<V, W>(a: Entries<V>, b: Entries<W>)
    requires |a| == |b| && forall i :: 0 <= i < |a| ==> a[i].0 == b[i].0
    ensures Keys(a) == Keys(b)
  {
  }

  /** QMap::contains plus QMap::value: the value of the first entry with key k. */
  function Lookup<V>(m: Entries<V>, k: string): (r: Option<V>)
    ensures r.None? <==> k !in Keys(m)
    ensures r.Some? ==> exists i :: 0 <= i < |m| && m[i] == (k, r.value)
  {
    if m == [] then None
    else if m[0].0 == k then
      assert Keys(m)[0] == k;
      Some(m[0].1)
    else
      var r := Lookup(m[1..], k);
      assert Keys(m) == [m[0].0] + Keys(m[1..]);
      assert r.Some? ==> exists i :: 0 <= i < |m[1..]| && m[1..][i] == (k, r.value);
      r
  }

  /** QVariantMap::value(key): the invalid QVariant when the key is absent. */
  function Get(m: Entries<Value>, k: string): Value
  {
    match Lookup(m, k)
    case Some(v) => v
    case None => Null
  }

  /** QMap::insert: replaces the value of an existing key, else inserts it in key order. */
  function Insert<V>(m: Entries<V>, k: string, v: V): (r: Entries<V>)
    ensures Lookup(r, k) == Some(v)
    ensures forall k' :: k' != k ==> Lookup(r, k') == Lookup(m, k')
    ensures forall k' :: k' in Keys(r) <==> k' in Keys(m) || k' == k
  {
    if m == [] then [(k, v)]
    else if m[0].0 == k then
      assert Keys(m) == [k] + Keys(m[1..]);
      assert Keys([(k, v)] + m[1..]) == [k] + Keys(m[1..]);
      [(k, v)] + m[1..]
    else if Less(k, m[0].0) then
      assert Keys([(k, v)] + m) == [k] + Keys(m);
      [(k, v)] + m
    else
      var rest := Insert(m[1..], k, v);
      assert Keys(m) == [m[0].0] + Keys(m[1..]);
      assert Keys([m[0]] + rest) == [m[0].0] + Keys(rest);
      [m[0]] + rest
  }

  lemma {:induction false} InsertSorted<V>(m: Entries<V>, k: string, v: V)
    requires Sorted(m)
    ensures Sorted(Insert(m, k, v))
  {
    if m == [] {
    } else if m[0].0 == k {
    } else if Less(k, m[0].0) {
      forall j | 0 <= j < |m| ensures Less(k, m[j].0) {
        if j > 0 {
          LessTransitive(k, m[0].0, m[j].0);
        }
      }
      SortedCons((k, v), m);
    } else {
      LessTotal(k, m[0].0);
      var tail := m[1..];
      assert Sorted(tail) by {
        assert forall i :: 0 <= i < |tail| ==> tail[i] == m[i + 1];
      }
      assert forall j :: 0 <= j < |tail| ==> Less(m[0].0, tail[j].0) by {
        assert forall j :: 0 <= j < |tail| ==> tail[j] == m[j + 1];
      }
      InsertSorted(tail, k, v);
      InsertAbove(tail, k, v, m[0].0);
      SortedCons(m[0], Insert(tail, k, v));
    }
  }

  /** An entry below every key of a sorted map can be put in front. */
  lemma SortedCons<V>(e: (string, V), rest: Entries<V>)
    requires Sorted(rest) && forall j :: 0 <= j < |rest| ==> Less(e.0, rest[j].0)
    ensures Sorted([e] + rest)
  {
    var r := [e] + rest;
    forall i, j | 0 <= i < j < |r| ensures Less(r[i].0, r[j].0) {
      if i == 0 {
        assert r[j] == rest[j - 1];
      } else {
        assert r[i] == rest[i - 1] && r[j] == rest[j - 1];
      }
    }
  }

  /** Inserting a key above a lower bound of m keeps every key above it. */
  lemma {:induction false} InsertAbove<V>(m: Entries<V>, k: string, v: V, lo: string)
    requires Less(lo, k) && forall j :: 0 <= j < |m| ==> Less(lo, m[j].0)
    ensures forall j :: 0 <= j < |Insert(m, k, v)| ==> Less(lo, Insert(m, k, v)[j].0)
  {
    if m != [] && m[0].0 != k && !Less(k, m[0].0) {
      InsertAbove(m[1..], k, v, lo);
      var rest := Insert(m[1..], k, v);
      forall j | 0 <= j < |[m[0]] + rest| ensures Less(lo, ([m[0]] + rest)[j].0) {
        if j > 0 {
          assert ([m[0]] + rest)[j] == rest[j - 1];
        }
      }
    }
  }

  /**
   * Inserting a key larger than every key present appends it: this is why
   * re-inserting the entries of a QMap in iteration order rebuilds the same map.
   */
  lemma {:induction false} InsertLargest<V>(m: Entries<V>, k: string, v: V)
    requires forall i :: 0 <= i < |m| ==> Less(m[i].0, k)
    ensures Insert(m, k, v) == m + [(k, v)]
  {
    if m != [] {
      LessAsymmetric(m[0].0, k);
      InsertLargest(m[1..], k, v);
      assert [m[0]] + (m[1..] + [(k, v)]) == m + [(k, v)];
    }
  }

  // ---------------------------------------------------------------------
  // QVariant conversions used by the property system.

  function IntToString(i: int): string
    decreases if i < 0 then 1 - i else i
  {
    if i < 0 then "-" + IntToString(-i)
    else if i < 10 then [['0', '1', '2', '3', '4', '5', '6', '7', '8', '9'][i]]
    else IntToString(i / 10) + IntToString(i % 10)
  }

  /** QVariant::toInt (numeric strings are not parsed; see README). */
  function ToInt(v: Value): int
  {
    match v
    case Int(i) => i
    case Bool(b) => if b then 1 else 0
    case _ => 0
  }

  /** QVariant::toString. */
  function ToStr(v: Value): string
  {
    match v
    case Str(s) => s
    case Int(i) => IntToString(i)
    case Bool(b) => if b then "true" else "false"
    case _ => ""
  }

  /**
   * QVariant::toBool: a string is false when it is empty, "0" or, in any
   * case, "false".
   */
  function ToBool(v: Value): bool
  {
    match v
    case Bool(b) => b
    case Int(i) => i != 0
    case Str(s) => s != "" && s != "0" && AsciiLower(s) != "false"
    case _ => false
  }

  /** ASCII letters lowered, the only case mapping that can produce "false". */
  function AsciiLower(s: string): string
  {
    seq(|s|, i requires 0 <= i < |s| => if 'A' <= s[i] <= 'Z' then (s[i] as int + 32) as char else s[i])
  }

  /** A string reads as false exactly when it is empty, "0", or "false" with any letters upper case. */
  lemma StringToBool(s: string)
    ensures !ToBool(Str(s)) <==>
      s == "" || s == "0" || (|s| == 5 && forall i :: 0 <= i < 5 ==> s[i] == "false"[i] || s[i] == "FALSE"[i])
  {
    if |s| == 5 && forall i :: 0 <= i < 5 ==> s[i] == "false"[i] || s[i] == "FALSE"[i] {
      assert AsciiLower(s) == "false";
    }
    if AsciiLower(s) == "false" {
      forall i | 0 <= i < 5 ensures s[i] == "false"[i] || s[i] == "FALSE"[i] {
        assert AsciiLower(s)[i] == "false"[i];
      }
    }
  }

  /** QVariant::toList. */
  function ToList(v: Value): seq<Value>
  {
    if v.List? then v.items else []
  }

  /** QVariant::toMap. */
  function ToMap(v: Value): Entries<Value>
  {
    if v.Map? then v.entries else []
  }

  /** QVariant::toStringList. */
  function ToStringList(v: Value): seq<string>
  {
    match v
    case List(items) => seq(|items|, i requires 0 <= i < |items| => ToStr(items[i]))
    case Str(s) => [s]
    case _ => []
  }

  function StringList(ss: seq<string>): (v: Value)
    ensures ToStringList(v) == ss
  {
    List(seq(|ss|, i requires 0 <= i < |ss| => Str(ss[i])))
  }

  // ---------------------------------------------------------------------
  // Size of a value, the measure that bounds nested class conversions.

  function Size(v: Value): nat
  {
    match v
    case List(items) => 1 + ListSize(items)
    case Map(entries) => 1 + EntriesSize(entries)
    case Wrapped(payload, _) => 1 + Size(payload)
    case _ => 1
  }

  function ListSize(items: seq<Value>): nat
  {
    if items == [] then 0 else Size(items[0]) + ListSize(items[1..])
  }

  function EntriesSize(entries: Entries<Value>): nat
  {
    if entries == [] then 0
    else
      assert entries[0].1 < entries[0];
      1 + Size(entries[0].1) + EntriesSize(entries[1..])
  }

  lemma {:induction false} EntrySizeLess(entries: Entries<Value>, k: nat)
    requires k < |entries|
    ensures Size(entries[k].1) < EntriesSize(entries)
  {
    if k > 0 {
      EntrySizeLess(entries[1..], k - 1);
    }
  }
}
