/**
 * BasicData, the profile record the cache stores: a user id, eight optional
 * strings, a marketing flag and a creation date, with its explicit property
 * list standing in for reflection.
 */
module BasicData {
  import opened Wrappers
  import opened Numerals
  import opened DateTimes
  import opened Clr
  import opened Store
  import Codec

  datatype BasicData = BasicData(
    userId: Long,
    firstName: Option<string>,
    lastName: Option<string>,
    email: Option<string>,
    phoneNumber: Option<string>,
    addressLine1: Option<string>,
    postalCode: Option<string>,
    city: Option<string>,
    country: Option<string>,
    hasMarketingPermission: bool,
    createdDate: ClrDateTime)

  /** The properties in declaration order, with their CLR types. */
  const Properties: seq<Codec.Property> := [
    Codec.Property("UserId", Int64Type),
    Codec.Property("FirstName", StringType),
    Codec.Property("LastName", StringType),
    Codec.Property("Email", StringType),
    Codec.Property("PhoneNumber", StringType),
    Codec.Property("AddressLine1", StringType),
    Codec.Property("PostalCode", StringType),
    Codec.Property("City", StringType),
    Codec.Property("Country", StringType),
    Codec.Property("HasMarketingPermission", BooleanType),
    Codec.Property("CreatedDate", DateTimeType)
  ]

  /** `new BasicData()`: every property at its type's default. */
  const Default: BasicData := BasicData(0, None, None, None, None, None, None, None, None, false, MinValue)

  function StringOf(s: Option<string>): ClrValue {
    match s
    case None => Null
    case Some(v) => StringValue(v)
  }

  function OptionOf(v: ClrValue): (s: Option<string>)
    ensures forall o :: v == StringOf(o) ==> s == o
  {
    if v.StringValue? then Some(v.s) else None
  }

  /** The property values of a record, in the order of Properties. */
  function Values(d: BasicData): (vs: seq<ClrValue>)
    ensures Codec.Typed(Properties, vs)
  {
    [ LongValue(d.userId), StringOf(d.firstName), StringOf(d.lastName), StringOf(d.email),
      StringOf(d.phoneNumber), StringOf(d.addressLine1), StringOf(d.postalCode), StringOf(d.city),
      StringOf(d.country), BoolValue(d.hasMarketingPermission), DateValue(d.createdDate) ]
  }

  /** The record whose property values these are. */
  function FromValues(vs: seq<ClrValue>): (d: BasicData)
    requires Codec.Typed(Properties, vs)
    ensures Values(d) == vs
  {
    BasicData(vs[0].l, OptionOf(vs[1]), OptionOf(vs[2]), OptionOf(vs[3]), OptionOf(vs[4]),
      OptionOf(vs[5]), OptionOf(vs[6]), OptionOf(vs[7]), OptionOf(vs[8]), vs[9].b, vs[10].d)
  }

  /** `data.ToHashEntries()` on a BasicData. */
  function ToHashEntries(d: BasicData): seq<HashEntry> {
    Codec.ToHashEntries(Properties, Values(d))
  }

  /** `entries.ConvertFromRedis<BasicData>()`. */
  function ConvertFromRedis(entries: seq<HashEntry>): (r: Result<BasicData, Codec.DecodeError>)
    ensures r.Success? <==> Codec.ConvertFromRedis(Properties, entries).Success?
    ensures r.Success? ==> Values(r.value) == Codec.ConvertFromRedis(Properties, entries).value
  {
    match Codec.ConvertFromRedis(Properties, entries)
    case Success(vs) => Success(FromValues(vs))
    case Failure(e) => Failure(e)
  }

  /** Every BasicData property has a supported type, so none is dropped for its type. */
  lemma AllPropertiesSupported()
    ensures forall i :: 0 <= i < |Properties| ==> IsSupportedType(Properties[i].propertyType)
    ensures Codec.DistinctNames(Properties)
  {
  }

  /** A record's entries convert back to the same record. */
  lemma RoundTrip(d: BasicData)
    ensures ConvertFromRedis(ToHashEntries(d)) == Success(d)
  {
    var vs := Values(d);
    AllPropertiesSupported();
    Codec.RoundTrip(Properties, vs);
    var e := Codec.ConvertFromRedis(Properties, ToHashEntries(d));
    assert e == Success(vs);
    ValuesInjective(FromValues(vs), d);
  }

  /** Distinct records have distinct property values. */
  lemma ValuesInjective(a: BasicData, b: BasicData)
    requires Values(a) == Values(b)
    ensures a == b
  {
    var va, vb := Values(a), Values(b);
    assert va[1] == vb[1] && va[2] == vb[2] && va[3] == vb[3] && va[4] == vb[4];
    assert va[5] == vb[5] && va[6] == vb[6] && va[7] == vb[7] && va[8] == vb[8];
    assert OptionOf(StringOf(a.firstName)) == a.firstName;
  }

  /** The entry of an optional string property: none when the string is null. */
  function OptionalEntry(name: string, s: Option<string>): seq<HashEntry> {
    match s
    case None => []
    case Some(v) => [HashEntry(name, v)]
  }

  /** What the property at position `i` contributes to the encoding, field by field. */
  function FieldEntries(d: BasicData, i: nat): seq<HashEntry>
    requires i < 11
  {
    match i
    case 0 => [HashEntry("UserId", FormatLong(d.userId))]
    case 1 => OptionalEntry("FirstName", d.firstName)
    case 2 => OptionalEntry("LastName", d.lastName)
    case 3 => OptionalEntry("Email", d.email)
    case 4 => OptionalEntry("PhoneNumber", d.phoneNumber)
    case 5 => OptionalEntry("AddressLine1", d.addressLine1)
    case 6 => OptionalEntry("PostalCode", d.postalCode)
    case 7 => OptionalEntry("City", d.city)
    case 8 => OptionalEntry("Country", d.country)
    case 9 => [HashEntry("HasMarketingPermission", if d.hasMarketingPermission then "True" else "False")]
    case 10 => [HashEntry("CreatedDate", DateTimes.Format(d.createdDate))]
  }

  /** The field-by-field entries of the properties from position `i` on. */
  function FieldEntriesFrom(d: BasicData, i: nat): seq<HashEntry>
    requires i <= 11
    decreases 11 - i
  {
    if i == 11 then [] else FieldEntries(d, i) + FieldEntriesFrom(d, i + 1)
  }

  /** The entries of a record written out field by field, in declaration order. */
  function Layout(d: BasicData): seq<HashEntry> {
    FieldEntries(d, 0) + (FieldEntries(d, 1) + (FieldEntries(d, 2) + (FieldEntries(d, 3)
      + (FieldEntries(d, 4) + (FieldEntries(d, 5) + (FieldEntries(d, 6) + (FieldEntries(d, 7)
      + (FieldEntries(d, 8) + (FieldEntries(d, 9) + FieldEntries(d, 10))))))))))
  }

  /** The generic encoder's step for one BasicData property is that field's entries. */
  lemma FieldStep(d: BasicData, i: nat)
    requires i < 11
    ensures (if Codec.Emitted(Properties[i], Values(d)[i]) then [Codec.EntryOf(Properties[i], Values(d)[i])] else [])
      == FieldEntries(d, i)
  {
  }

  lemma {:induction false} EntriesFrom(d: BasicData, i: nat)
    requires i <= 11
    ensures Codec.ToHashEntries(Properties[i..], Values(d)[i..]) == FieldEntriesFrom(d, i)
    decreases 11 - i
  {
    if i < 11 {
      Codec.ToHashEntriesFrom(Properties, Values(d), i);
      FieldStep(d, i);
      EntriesFrom(d, i + 1);
    }
  }

  /** The generic encoder, run over BasicData's property list, writes exactly the field-by-field layout. */
  lemma EntriesLayout(d: BasicData)
    ensures ToHashEntries(d) == Layout(d)
  {
    EntriesFrom(d, 0);
    assert Properties[0..] == Properties;
    assert Values(d)[0..] == Values(d);
    assert ToHashEntries(d) == FieldEntriesFrom(d, 0);
    LayoutUnfolds(d);
  }

  lemma LayoutUnfolds(d: BasicData)
    ensures FieldEntriesFrom(d, 0) == Layout(d)
  {
    var f := FieldEntriesFrom(d, 0);
    assert f == FieldEntries(d, 0) + FieldEntriesFrom(d, 1);
    assert FieldEntriesFrom(d, 1) == FieldEntries(d, 1) + FieldEntriesFrom(d, 2);
    assert FieldEntriesFrom(d, 2) == FieldEntries(d, 2) + FieldEntriesFrom(d, 3);
    assert FieldEntriesFrom(d, 3) == FieldEntries(d, 3) + FieldEntriesFrom(d, 4);
    assert FieldEntriesFrom(d, 4) == FieldEntries(d, 4) + FieldEntriesFrom(d, 5);
    assert FieldEntriesFrom(d, 5) == FieldEntries(d, 5) + FieldEntriesFrom(d, 6);
    assert FieldEntriesFrom(d, 6) == FieldEntries(d, 6) + FieldEntriesFrom(d, 7);
    assert FieldEntriesFrom(d, 7) == FieldEntries(d, 7) + FieldEntriesFrom(d, 8);
    assert FieldEntriesFrom(d, 8) == FieldEntries(d, 8) + FieldEntriesFrom(d, 9);
    assert FieldEntriesFrom(d, 9) == FieldEntries(d, 9) + FieldEntriesFrom(d, 10);
    assert FieldEntriesFrom(d, 10) == FieldEntries(d, 10) + FieldEntriesFrom(d, 11);
    assert FieldEntriesFrom(d, 11) == [];
    assert FieldEntries(d, 10) + [] == FieldEntries(d, 10);
  }

  /** The encoding holds the three value-typed fields always and the eight strings only when non-null: 3 to 11 entries. */
  lemma EncodingSize(d: BasicData)
    ensures 3 <= |ToHashEntries(d)| <= 11
  {
    EntriesLayout(d);
    LayoutSize(d);
  }

  lemma LayoutSize(d: BasicData)
    ensures 3 <= |Layout(d)| <= 11
  {
    var e := seq(11, i requires 0 <= i < 11 => FieldEntries(d, i));
    assert forall i :: 0 <= i < 11 ==> |e[i]| <= 1;
    assert |e[0]| == 1 && |e[9]| == 1 && |e[10]| == 1;
    assert Layout(d) == e[0] + (e[1] + (e[2] + (e[3] + (e[4] + (e[5] + (e[6] + (e[7] + (e[8] + (e[9] + e[10])))))))));
  }

  /** UserId, HasMarketingPermission and CreatedDate are value types, so they are always written. */
  lemma ValueFieldsAlwaysPresent(d: BasicData)
    ensures HashEntry("UserId", FormatLong(d.userId)) in ToHashEntries(d)
    ensures HashEntry("HasMarketingPermission", if d.hasMarketingPermission then "True" else "False") in ToHashEntries(d)
    ensures HashEntry("CreatedDate", DateTimes.Format(d.createdDate)) in ToHashEntries(d)
  {
    var r := ToHashEntries(d);
    assert Codec.EntryOf(Properties[0], Values(d)[0]) in r;
    assert Codec.EntryOf(Properties[9], Values(d)[9]) in r;
    assert Codec.EntryOf(Properties[10], Values(d)[10]) in r;
  }

  /** A string property is written, with its text, exactly when it is non-null. */
  lemma StringFieldPresence(d: BasicData, i: nat, v: string)
    requires 1 <= i <= 8
    ensures HashEntry(Properties[i].name, v) in ToHashEntries(d) <==> Values(d)[i] == StringValue(v)
  {
    if Values(d)[i] == StringValue(v) {
      StringFieldWritten(d, i, v);
    }
    if HashEntry(Properties[i].name, v) in ToHashEntries(d) {
      StringFieldRead(d, i, v);
    }
  }

  /** A null string property contributes no entry under its name. */
  lemma StringFieldAbsent(d: BasicData, i: nat)
    requires 1 <= i <= 8 && Values(d)[i] == Null
    ensures forall e :: e in ToHashEntries(d) ==> e.name != Properties[i].name
  {
    var vs := Values(d);
    AllPropertiesSupported();
    Codec.NullOmitted(Properties, vs, i);
  }

  lemma StringProperties()
    ensures forall i :: 1 <= i <= 8 ==> Properties[i].propertyType == StringType
  {
  }

  lemma StringFieldWritten(d: BasicData, i: nat, v: string)
    requires 1 <= i <= 8 && Values(d)[i] == StringValue(v)
    ensures HashEntry(Properties[i].name, v) in ToHashEntries(d)
  {
    var ps, vs := Properties, Values(d);
    assert ps[i].propertyType == StringType;
    assert Codec.Emitted(ps[i], vs[i]);
    assert Codec.EntryOf(ps[i], vs[i]) == HashEntry(ps[i].name, v);
  }

  lemma StringFieldRead(d: BasicData, i: nat, v: string)
    requires 1 <= i <= 8 && HashEntry(Properties[i].name, v) in ToHashEntries(d)
    ensures Values(d)[i] == StringValue(v)
  {
    var vs := Values(d);
    AllPropertiesSupported();
    StringProperties();
    Codec.EntryNamed(Properties, vs, i, v);
    assert HasType(vs[i], StringType);
    assert vs[i] != Null;
    assert ToText(vs[i]) == vs[i].s;
  }

  /** Converting an empty entry list gives `new BasicData()`: id 0, no marketing permission, MinValue, null strings. */
  lemma DecodeEmpty()
    ensures ConvertFromRedis([]) == Success(Default)
    ensures Default.userId == 0 && !Default.hasMarketingPermission && Default.createdDate == MinValue
    ensures Default.firstName.None? && Default.lastName.None? && Default.email.None? && Default.phoneNumber.None?
    ensures Default.addressLine1.None? && Default.postalCode.None? && Default.city.None? && Default.country.None?
  {
    var vs := Values(Default);
    forall i | 0 <= i < |Properties|
      ensures Codec.PropertyValue(Properties[i], []) == Success(vs[i])
    {
    }
    Codec.ConvertFromValues(Properties, [], vs);
    ValuesInjective(FromValues(vs), Default);
  }

  /** The record the login action stores for its mocked user. */
  const LoginSample: BasicData := BasicData(
    1210, Some("Stefan"), Some("Olsen"), Some("stefan@test.com"),
    None, None, None, None, None, true, DateTime(2000, 1, 1, 0, 0, 0))

  /** The entries the login sample is stored as. */
  const LoginSampleEntries: seq<HashEntry> := [
    HashEntry("UserId", "1210"),
    HashEntry("FirstName", "Stefan"),
    HashEntry("LastName", "Olsen"),
    HashEntry("Email", "stefan@test.com"),
    HashEntry("HasMarketingPermission", "True"),
    HashEntry("CreatedDate", "01/01/2000 00:00:00")
  ]

  /** The login sample is written as exactly six entries and converts back to itself. */
  lemma LoginSampleRoundTrip()
    ensures ToHashEntries(LoginSample) == LoginSampleEntries
    ensures ConvertFromRedis(LoginSampleEntries) == Success(LoginSample)
  {
    EntriesLayout(LoginSample);
    LoginSampleLayout();
    RoundTrip(LoginSample);
  }

  lemma LoginSampleLayout()
    ensures Layout(LoginSample) == LoginSampleEntries
  {
    SampleFieldsWritten();
    SampleFieldsNull();
    var d := LoginSample;
    assert Layout(d) == [LoginSampleEntries[0]] + ([LoginSampleEntries[1]] + ([LoginSampleEntries[2]] + ([LoginSampleEntries[3]]
      + ([] + ([] + ([] + ([] + ([] + ([LoginSampleEntries[4]] + [LoginSampleEntries[5]])))))))));
  }

  lemma SampleFieldsWritten()
    ensures FieldEntries(LoginSample, 0) == [HashEntry("UserId", "1210")]
    ensures FieldEntries(LoginSample, 1) == [HashEntry("FirstName", "Stefan")]
    ensures FieldEntries(LoginSample, 2) == [HashEntry("LastName", "Olsen")]
    ensures FieldEntries(LoginSample, 3) == [HashEntry("Email", "stefan@test.com")]
    ensures FieldEntries(LoginSample, 9) == [HashEntry("HasMarketingPermission", "True")]
    ensures FieldEntries(LoginSample, 10) == [HashEntry("CreatedDate", "01/01/2000 00:00:00")]
  {
    SampleIdText();
    SampleDateText();
  }

  lemma SampleIdText()
    ensures FormatLong(LoginSample.userId) == "1210"
  {
    assert Digits(121) == "121";
  }

  lemma SampleFieldsNull()
    ensures forall i :: 4 <= i <= 8 ==> FieldEntries(LoginSample, i) == []
  {
  }

  lemma SampleDateText()
    ensures DateTimes.Format(LoginSample.createdDate) == "01/01/2000 00:00:00"
  {
    FormatNewYear2000();
  }
}
