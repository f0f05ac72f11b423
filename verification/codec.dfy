/**
 * ObjectExtensions: the generic mapping between a record and a list of Redis
 * hash entries. Reflection is replaced by an explicit property list: each
 * Property names a record field and gives its type, and a record is seen as
 * the sequence of its property values in that order.
 */
module Codec {
  import opened Wrappers
  import opened Clr
  import opened Store

  datatype Property = Property(name: string, propertyType: ClrType)

  /** The record's property values fit the property list. */
  predicate Typed(props: seq<Property>, values: seq<ClrValue>) {
    |props| == |values| && forall i :: 0 <= i < |props| ==> HasType(values[i], props[i].propertyType)
  }

  /** A class declares each property name once. */
  predicate DistinctNames(props: seq<Property>) {
    forall i, j :: 0 <= i < j < |props| ==> props[i].name != props[j].name
  }

  /** The property is written out: its type is supported and its value is not null. */
  predicate Emitted(p: Property, v: ClrValue) {
    IsSupportedType(p.propertyType) && v != Null
  }

  /** The entry a written-out property becomes. */
  function EntryOf(p: Property, v: ClrValue): HashEntry
    requires Emitted(p, v) && HasType(v, p.propertyType)
  {
    HashEntry(p.name, ToText(v))
  }

  /** ToHashEntries: one (name, text) entry per emitted property, in property order. */
  function ToHashEntries(props: seq<Property>, values: seq<ClrValue>): (r: seq<HashEntry>)
    requires Typed(props, values)
    ensures |r| <= |props|
    ensures forall i :: 0 <= i < |props| && Emitted(props[i], values[i]) ==> EntryOf(props[i], values[i]) in r
    ensures forall e :: e in r ==> exists i :: 0 <= i < |props| && Emitted(props[i], values[i]) && e == EntryOf(props[i], values[i])
    decreases |props|
  {
    if |props| == 0 then []
    else
      var rest := ToHashEntries(props[1..], values[1..]);
      assert forall i :: 1 <= i < |props| ==> props[1..][i - 1] == props[i] && values[1..][i - 1] == values[i];
      if Emitted(props[0], values[0]) then [EntryOf(props[0], values[0])] + rest else rest
  }

  /** The entries of a property-list suffix: those of its first property, then those of the rest. */
  lemma ToHashEntriesFrom(props: seq<Property>, values: seq<ClrValue>, i: nat)
    requires Typed(props, values) && i < |props|
    ensures ToHashEntries(props[i..], values[i..])
      == (if Emitted(props[i], values[i]) then [EntryOf(props[i], values[i])] else [])
         + ToHashEntries(props[i + 1..], values[i + 1..])
  {
    assert props[i..][1..] == props[i + 1..];
    assert values[i..][1..] == values[i + 1..];
  }

  /** Entry names are pairwise distinct when property names are. */
  lemma {:induction false} EntryNamesDistinct(props: seq<Property>, values: seq<ClrValue>)
    requires Typed(props, values) && DistinctNames(props)
    ensures DistinctEntryNames(ToHashEntries(props, values))
    decreases |props|
  {
    if |props| > 0 {
      EntryNamesDistinct(props[1..], values[1..]);
      var rest := ToHashEntries(props[1..], values[1..]);
      var r := ToHashEntries(props, values);
      if Emitted(props[0], values[0]) {
        assert r == [EntryOf(props[0], values[0])] + rest;
        forall i, j | 0 <= i < j < |r|
          ensures r[i].name != r[j].name
        {
          assert r[j] == rest[j - 1];
          if i == 0 {
            assert rest[j - 1] in rest;
            var k :| 0 <= k < |props[1..]| && Emitted(props[1..][k], values[1..][k])
              && rest[j - 1] == EntryOf(props[1..][k], values[1..][k]);
            assert props[1..][k] == props[k + 1];
            assert rest[j - 1].name == props[k + 1].name;
            assert r[0].name == props[0].name;
          } else {
            assert r[i] == rest[i - 1];
            assert rest[i - 1].name != rest[j - 1].name;
          }
        }
      } else {
        assert r == rest;
      }
    }
  }

  /** Exactly one entry carries the name of an emitted property, and none the name of any other. */
  lemma EntryPerEmittedProperty(props: seq<Property>, values: seq<ClrValue>, i: nat)
    requires Typed(props, values) && DistinctNames(props) && i < |props|
    ensures Emitted(props[i], values[i]) ==> EntryOf(props[i], values[i]) in ToHashEntries(props, values)
    ensures var r := ToHashEntries(props, values);
      !Emitted(props[i], values[i]) ==> forall k :: 0 <= k < |r| ==> r[k].name != props[i].name
  {
    var r := ToHashEntries(props, values);
    if !Emitted(props[i], values[i]) {
      forall k | 0 <= k < |r|
        ensures r[k].name != props[i].name
      {
        assert r[k] in r;
        var j :| 0 <= j < |props| && Emitted(props[j], values[j]) && r[k] == EntryOf(props[j], values[j]);
        assert r[k].name == props[j].name;
      }
    }
  }

  /** An entry carrying a property's name was written from that property, with its text. */
  lemma EntryNamed(props: seq<Property>, values: seq<ClrValue>, i: nat, text: string)
    requires Typed(props, values) && DistinctNames(props) && i < |props|
    requires HashEntry(props[i].name, text) in ToHashEntries(props, values)
    ensures Emitted(props[i], values[i]) && text == ToText(values[i])
  {
    var j :| 0 <= j < |props| && Emitted(props[j], values[j]) && HashEntry(props[i].name, text) == EntryOf(props[j], values[j]);
    assert props[j].name == props[i].name;
  }

  /** A null-valued property is left out rather than written as an empty value. */
  lemma NullOmitted(props: seq<Property>, values: seq<ClrValue>, i: nat)
    requires Typed(props, values) && DistinctNames(props) && i < |props| && values[i] == Null
    ensures forall e :: e in ToHashEntries(props, values) ==> e.name != props[i].name
  {
    var r := ToHashEntries(props, values);
    EntryPerEmittedProperty(props, values, i);
    forall e | e in r
      ensures e.name != props[i].name
    {
      var k :| 0 <= k < |r| && r[k] == e;
    }
  }

  /** The position of the first entry with the given name (Enumerable.FirstOrDefault). */
  function FirstIndex(entries: seq<HashEntry>, name: string): (r: Option<nat>)
    ensures r.Some? ==>
              && r.value < |entries| && entries[r.value].name == name
              && forall j :: 0 <= j < r.value ==> entries[j].name != name
    ensures r.None? ==> forall j :: 0 <= j < |entries| ==> entries[j].name != name
    decreases |entries|
  {
    if |entries| == 0 then None
    else if entries[0].name == name then Some(0)
    else match FirstIndex(entries[1..], name)
      case None => None
      case Some(k) => Some(k + 1)
  }

  /** The FormatException (or cast failure) raised while setting the named property. */
  datatype DecodeError = FormatError(property: string)

  /** The value ConvertFromRedis gives one property: its default, or the parse of the first same-named entry. */
  function PropertyValue(p: Property, entries: seq<HashEntry>): (r: Result<ClrValue, DecodeError>)
    ensures r.Success? ==> HasType(r.value, p.propertyType)
  {
    match FirstIndex(entries, p.name)
    case None => Success(Default(p.propertyType))
    case Some(k) =>
      match ChangeType(entries[k].value, p.propertyType)
      case None => Failure(FormatError(p.name))
      case Some(v) => Success(v)
  }

  /**
   * ConvertFromRedis: every property takes its value from the entries, in
   * property order; the first property whose text does not parse aborts the
   * whole conversion, so no partially filled record is ever returned.
   */
  function ConvertFromRedis(props: seq<Property>, entries: seq<HashEntry>): (r: Result<seq<ClrValue>, DecodeError>)
    ensures r.Success? ==>
              && Typed(props, r.value)
              && forall i :: 0 <= i < |props| ==> PropertyValue(props[i], entries) == Success(r.value[i])
    ensures r.Failure? ==> exists i :: 0 <= i < |props| && PropertyValue(props[i], entries) == Failure(r.error)
    ensures r.Failure? <==> exists i :: 0 <= i < |props| && PropertyValue(props[i], entries).Failure?
    decreases |props|
  {
    if |props| == 0 then Success([])
    else
      assert forall i :: 1 <= i < |props| ==> props[1..][i - 1] == props[i];
      match PropertyValue(props[0], entries)
      case Failure(e) => Failure(e)
      case Success(v) =>
        match ConvertFromRedis(props[1..], entries)
        case Failure(e) => Failure(e)
        case Success(vs) =>
          var r := [v] + vs;
          assert forall i :: 1 <= i < |props| ==> r[i] == vs[i - 1];
          Success(r)
  }

  /** A property with no same-named entry keeps its type's default value. */
  lemma AbsentKeepsDefault(props: seq<Property>, entries: seq<HashEntry>, i: nat)
    requires i < |props| && forall e :: e in entries ==> e.name != props[i].name
    requires ConvertFromRedis(props, entries).Success?
    ensures ConvertFromRedis(props, entries).value[i] == Default(props[i].propertyType)
  {
  }

  /** When several entries share a property's name, the first of them gives its value. */
  lemma FirstMatchWins(props: seq<Property>, entries: seq<HashEntry>, i: nat, j: nat)
    requires i < |props| && j < |entries| && entries[j].name == props[i].name
    requires forall k :: 0 <= k < j ==> entries[k].name != props[i].name
    requires ConvertFromRedis(props, entries).Success?
    ensures ChangeType(entries[j].value, props[i].propertyType) == Some(ConvertFromRedis(props, entries).value[i])
  {
  }

  /** A first matching entry that does not convert to the property's type fails the whole decode. */
  lemma UnparseableFails(props: seq<Property>, entries: seq<HashEntry>, i: nat, j: nat)
    requires i < |props| && j < |entries| && entries[j].name == props[i].name
    requires forall k :: 0 <= k < j ==> entries[k].name != props[i].name
    requires ChangeType(entries[j].value, props[i].propertyType).None?
    ensures ConvertFromRedis(props, entries).Failure?
  {
  }

  /** Entries after the list that do not carry the name leave the first match where it was. */
  lemma {:induction false} FirstIndexForeignSuffix(a: seq<HashEntry>, b: seq<HashEntry>, name: string)
    requires forall j :: 0 <= j < |b| ==> b[j].name != name
    ensures FirstIndex(a + b, name) == FirstIndex(a, name)
    decreases |a|
  {
    if |a| == 0 {
      assert a + b == b;
    } else if a[0].name != name {
      assert (a + b)[1..] == a[1..] + b;
      FirstIndexForeignSuffix(a[1..], b, name);
    }
  }

  /** Entries before the list that do not carry the name shift the first match by their number. */
  lemma {:induction false} FirstIndexForeignPrefix(b: seq<HashEntry>, a: seq<HashEntry>, name: string)
    requires forall j :: 0 <= j < |b| ==> b[j].name != name
    ensures FirstIndex(b + a, name) == match FirstIndex(a, name) case None => None case Some(k) => Some(k + |b|)
    decreases |b|
  {
    if |b| == 0 {
      assert b + a == a;
    } else {
      assert (b + a)[1..] == b[1..] + a;
      FirstIndexForeignPrefix(b[1..], a, name);
    }
  }

  /** Entries whose names match no property are ignored, wherever they stand. */
  lemma IgnoresForeignEntries(props: seq<Property>, entries: seq<HashEntry>, extra: seq<HashEntry>)
    requires forall j, i :: 0 <= j < |extra| && 0 <= i < |props| ==> extra[j].name != props[i].name
    ensures ConvertFromRedis(props, entries + extra) == ConvertFromRedis(props, entries)
    ensures ConvertFromRedis(props, extra + entries) == ConvertFromRedis(props, entries)
  {
    forall i | 0 <= i < |props|
      ensures PropertyValue(props[i], entries + extra) == PropertyValue(props[i], entries)
      ensures PropertyValue(props[i], extra + entries) == PropertyValue(props[i], entries)
    {
      FirstIndexForeignSuffix(entries, extra, props[i].name);
      FirstIndexForeignPrefix(extra, entries, props[i].name);
    }
    SameValuesSameResult(props, entries + extra, entries);
    SameValuesSameResult(props, extra + entries, entries);
  }

  /** Two entry lists that give every property the same value convert alike. */
  lemma {:induction false} SameValuesSameResult(props: seq<Property>, a: seq<HashEntry>, b: seq<HashEntry>)
    requires forall i :: 0 <= i < |props| ==> PropertyValue(props[i], a) == PropertyValue(props[i], b)
    ensures ConvertFromRedis(props, a) == ConvertFromRedis(props, b)
    decreases |props|
  {
    if |props| > 0 {
      assert forall i :: 1 <= i < |props| ==> props[1..][i - 1] == props[i];
      SameValuesSameResult(props[1..], a, b);
    }
  }

  /** In a list without repeated names, an entry is the first one carrying its name. */
  lemma FirstIndexOfUniqueName(entries: seq<HashEntry>, k: nat)
    requires DistinctEntryNames(entries) && k < |entries|
    ensures FirstIndex(entries, entries[k].name) == Some(k)
  {
  }

  /** The entry list of a record gives each property its own value back. */
  lemma RoundTripAt(props: seq<Property>, values: seq<ClrValue>, i: nat)
    requires Typed(props, values) && DistinctNames(props) && i < |props|
    requires IsSupportedType(props[i].propertyType)
    ensures PropertyValue(props[i], ToHashEntries(props, values)) == Success(values[i])
  {
    var r := ToHashEntries(props, values);
    EntryNamesDistinct(props, values);
    EntryPerEmittedProperty(props, values, i);
    if Emitted(props[i], values[i]) {
      var k :| 0 <= k < |r| && r[k] == EntryOf(props[i], values[i]);
      FirstIndexOfUniqueName(r, k);
      ChangeTypeToText(values[i], props[i].propertyType);
    } else {
      SupportedTypes(props[i].propertyType);
    }
  }

  /** Conversion succeeds with exactly the values the properties are given one by one. */
  lemma ConvertFromValues(props: seq<Property>, entries: seq<HashEntry>, values: seq<ClrValue>)
    requires |values| == |props|
    requires forall i :: 0 <= i < |props| ==> PropertyValue(props[i], entries) == Success(values[i])
    ensures ConvertFromRedis(props, entries) == Success(values)
  {
    var r := ConvertFromRedis(props, entries);
    assert forall i :: 0 <= i < |props| ==> r.value[i] == values[i];
    assert r.value == values;
  }

  /**
   * Round trip: converting back the entries of a record whose properties all
   * have supported types gives the record again; null strings come back null.
   */
  lemma RoundTrip(props: seq<Property>, values: seq<ClrValue>)
    requires Typed(props, values) && DistinctNames(props)
    requires forall i :: 0 <= i < |props| ==> IsSupportedType(props[i].propertyType)
    ensures ConvertFromRedis(props, ToHashEntries(props, values)) == Success(values)
  {
    forall i | 0 <= i < |props|
      ensures PropertyValue(props[i], ToHashEntries(props, values)) == Success(values[i])
    {
      RoundTripAt(props, values, i);
    }
    ConvertFromValues(props, ToHashEntries(props, values), values);
  }
}
