# redis-profile session cache, modelled in Dafny

redis-profile is an ASP.NET sample that keeps a logged-in visitor's session
state in Redis. Logging in mints a random GUID token. The token key
`tokens:<guid in "N" form>` maps that token to the visitor's numeric user id
for 5 minutes. `ValidateUserTokenExistsAsync` slides that TTL forward each
time it finds the token, but no code in this repository calls it: the cookie
hook in CustomPrincipalValidator calls `ValidateProfileExistsAsync` instead
(RedisProfile/Services/CustomPrincipalValidator.cs:29), and this service does
not define that method. The visitor's `BasicData` record sits in the hash `profiles:<user id>`
for 120 minutes after it was last written. Logging off while the token is
live deletes both keys; once the token has expired it deletes nothing, and the
profile stays until its own TTL runs out. The
record is turned into hash entries, and back, by a reflection-driven codec:
each supported property becomes one `name -> ToString()` entry, null values
are skipped, and decoding copies the first entry whose name matches each
property through `Convert.ChangeType`.

The model has these parts:

- `Store` (store.dfy): the Redis server as a map from key to entry. An entry
  is a string or a hash, with either no expiry or an absolute expiry time on
  a logical clock counted in minutes. A key is live while `now` is before its
  expiry. GET, SET with EX, HSET, EXPIRE and DEL are pure functions of the
  store and the clock. Their error paths are modelled too: WRONGTYPE for GET
  on a hash and for HSET on a string.
- `Numerals`, `Keys` (numerals.dfy, keys.dfy): the text forms that make up
  keys and values. A `long` is written in decimal. The `(long)` cast
  of the stored RedisValue is modelled as Int64 integer-style parsing: an
  optional sign, then decimal digits within the Int64 range. A `Guid` is a 128-bit number, and its "N" form is 32
  lower-case hex digits. The key formats are `tokens:{0}` and `profiles:{0}`.
- `Clr`, `DateTimes` (clr.dfy, datetimes.dfy): the property types the codec
  meets. This covers which of them are supported, their defaults, their
  `ToString()` text and `Convert.ChangeType` back from text.
- `Codec` (codec.dfy): `ToHashEntries` and `ConvertFromRedis` over an
  explicit list of (name, type) properties, which stands in for reflection.
- `BasicData` (basic_data.dfy): the record, and the codec instantiated with
  its 11 properties in declaration order.
- `CustomerDataService` (customer_data_service.dfy): the service's
  operations. Each one is a transition of the store at clock reading `now`.
  StoreUserToken returns only the new store, because SET with EX on any key
  cannot fail; the others return the new store plus either the value or the
  error: the server's WRONGTYPE, or the client-side cast failure of a
  non-numeric token value.
- `CacheProperties` (cache_properties.dfy): properties that span several
  operations. These cover sliding expiry, deletion, upsert semantics and the
  login/log-off flow of the account controller.

The model follows the code as written:

- Storing a profile is an HSET upsert, not a replace. Fields that the new
  encoding lacks, such as a string property that has become null, keep their
  old values. `CacheProperties.NullFieldKeepsStaleValue` states this.
- The service in this repository has no profile read operation and no
  sub-record handling. Neither is modelled.

## Model

| member | source | states |
|---|---|---|
| Numerals.FormatLong | RedisProfile/Services/CustomerDataService.cs:62-63 | `long.ToString()` in the invariant culture is never empty, and starts with `-` exactly for a negative id; Numerals.FormatLongDigits and Numerals.ParseFormatLong state the rest |
| Numerals.FormatLongDigits | RedisProfile/Services/CustomerDataService.cs:62-63 | a non-negative id is written as its shortest decimal digits, and a negative one as `-` followed by the digits of its magnitude |
| Numerals.ParseLong | RedisProfile/Services/CustomerDataService.cs:103 | the long cast accepts only an optional sign followed by decimal digits whose value (negated after `-`) is the result, and accepts every plain digit string within range |
| Numerals.ParseFormatLong | RedisProfile/Services/CustomerDataService.cs:62-64 | the decimal text a user id is stored as reads back through the long cast (line 103) as the same id, for every 64-bit value |
| Numerals.FormatLongInjective | RedisProfile/Services/CustomerDataService.cs:43 | distinct user ids are written as distinct decimal texts |
| Keys.TokenKey | RedisProfile/Services/CustomerDataService.cs:90-91 | a token key is `tokens:` followed by exactly the token's 32-digit "N" form (see Keys.GuidN) |
| Keys.ProfileKey | RedisProfile/Services/CustomerDataService.cs:80 | a profile key is `profiles:` followed by exactly the user id's decimal text |
| Keys.ProfileKeyReadsBack | RedisProfile/Services/CustomerDataService.cs:43 | the text after `profiles:` parses back to the user id |
| Keys.GuidN | RedisProfile/Services/CustomerDataService.cs:57 | the "N" form of a token is exactly 32 lower-case hex digits whose value is the token |
| Keys.TokenKeyInjective | RedisProfile/Services/CustomerDataService.cs:57-58 | two tokens share a token key if and only if they are the same token |
| Keys.ProfileKeyInjective | RedisProfile/Services/CustomerDataService.cs:80 | two user ids share a profile key if and only if they are equal |
| Keys.TokenAndProfileKeysDisjoint | RedisProfile/Services/CustomerDataService.cs:13-14 | no token key is ever a profile key, so writing one never disturbs the other |
| Store.StringGet | RedisProfile/Services/CustomerDataService.cs:93 | GET gives nothing exactly when the key is missing or expired, fails exactly when it holds a hash, and otherwise gives the stored string |
| Store.StringSet | RedisProfile/Services/CustomerDataService.cs:62-64 | SET with EX overwrites the key with the string and an expiry `ttl` minutes ahead, so the key is live; every other key is unchanged |
| Store.PutFields | RedisProfile/Services/CustomerDataService.cs:83 | the field names after HSET are exactly the old names plus every entry's name |
| Store.PutFieldsStores | RedisProfile/Services/CustomerDataService.cs:83 | with distinct entry names, HSET stores each entry's value under its name and keeps every old field that no entry names |
| Store.HashSet | RedisProfile/Services/CustomerDataService.cs:83 | HSET fails with WRONGTYPE exactly when entries are given and the key holds a live string. Otherwise a non-empty write upserts the pairs into the live hash and keeps its expiry, or creates a hash with no expiry when the key is missing or expired. An empty list changes nothing, and other keys are unchanged |
| Store.KeyExpire | RedisProfile/Services/CustomerDataService.cs:100 | EXPIRE moves a live key's expiry to `now + ttl`, leaves its value alone, and is a no-op on a missing or expired key |
| Store.KeyDelete | RedisProfile/Services/CustomerDataService.cs:45-46 | DEL removes the key and nothing else |
| CustomerDataService.GetUserId | RedisProfile/Services/CustomerDataService.cs:88-107 | resolves to nothing if and only if the token key is missing, expired or empty; resolves to `id` if and only if it holds text that parses as `id` (an optional sign, then decimal digits, as Numerals.ParseLong states); fails with WRONGTYPE if and only if it holds a hash, and otherwise only on non-numeric text; only a refreshing hit changes the store, and then only the token key's expiry, to `now + 5` |
| CustomerDataService.StoreUserToken | RedisProfile/Services/CustomerDataService.cs:50-66 | the token key holds the user id's decimal text with expiry `now + 5`, whatever it held before; every other key is unchanged |
| CustomerDataService.ValidateUserTokenExists | RedisProfile/Services/CustomerDataService.cs:16-27 | true if and only if the token resolves to some user id; false if and only if it is unresolved, and then the store is unchanged; only the token key can change |
| CustomerDataService.StoreProfileData | RedisProfile/Services/CustomerDataService.cs:68-86 | an unresolved token makes it a no-op; a failure leaves the store unchanged; a resolved token changes only that user's profile key |
| CustomerDataService.WriteProfile | RedisProfile/Services/CustomerDataService.cs:83-84 | fails if and only if the HSET meets a live string, and then changes nothing; otherwise a non-empty write leaves a hash there expiring at `now + 120`; only that key changes |
| CustomerDataService.DeleteUserData | RedisProfile/Services/CustomerDataService.cs:29-48 | an unresolved token makes it a no-op; a failure leaves the store unchanged; a token resolving to `id` results in exactly the store minus the token key and `id`'s profile key |
| CacheProperties.StoredTokenResolves | RedisProfile/Services/CustomerDataService.cs:95-103 | a token stored at `last` resolves to its user id at any time before `last + 5` |
| CacheProperties.StoreUserTokenThenGetUserId | RedisProfile/Services/CustomerDataService.cs:50-107 | after StoreUserToken, GetUserId returns the stored user id, with or without refresh, for the next 5 minutes |
| CacheProperties.ValidateSlides | RedisProfile/Services/CustomerDataService.cs:16-27 | validating a live token returns true, restarts its 5-minute window at `now`, and changes no other key |
| CacheProperties.SlidingExpiryKeepsTokenAlive | RedisProfile/Services/CustomerDataService.cs:98-101 | validations each less than 5 minutes after the previous one all succeed, and the token stays stored as of the last one, however long the chain |
| CacheProperties.LoginThenSpacedValidations | RedisProfile/Controllers/AccountController.cs:49 | after the login's StoreUserToken, any chain of validations spaced under 5 minutes apart all return true |
| CacheProperties.TokenExpiresAfterGap | RedisProfile/Services/CustomerDataService.cs:62-64 | 5 minutes or more without a refresh and the token no longer resolves; validation returns false and changes nothing |
| CacheProperties.GetUserIdTouchesOnlyTokenExpiry | RedisProfile/Services/CustomerDataService.cs:98-103 | on a resolving token, the non-refreshing read leaves the store unchanged, and the refreshing read changes only the token's expiry |
| CacheProperties.StoreProfileDataUpserts | RedisProfile/Services/CustomerDataService.cs:80-84 | with a resolved token, every encoded field is written to the profile hash, fields the encoding does not name keep their old values, the profile expires at `now + 120`, and the token entry is untouched |
| CacheProperties.StoreProfileDataWritesEmail | RedisProfile/Services/CustomerDataService.cs:81-83 | storing a record with an email puts that address in the profile hash, and the token still resolves |
| CacheProperties.StoreProfileDataKeepsEmail | RedisProfile/Services/CustomerDataService.cs:81-83 | storing a record whose email is null keeps the address already in the profile hash |
| CacheProperties.NullFieldKeepsStaleValue | RedisProfile/Services/CustomerDataService.cs:83 | a second store with a null email over a first with an address leaves the first address in the hash |
| CacheProperties.StoreProfileDataWrongType | RedisProfile/Services/CustomerDataService.cs:83 | a profile key holding a string makes the store fail with WRONGTYPE and change nothing |
| CacheProperties.DeleteThenUnresolved | RedisProfile/Services/CustomerDataService.cs:45 | after a successful delete the token no longer resolves, then or later |
| CacheProperties.DeleteTwiceIsNoOp | RedisProfile/Services/CustomerDataService.cs:35-39 | a second delete with the same token changes nothing |
| CacheProperties.OnlyDeleteRemovesProfile | RedisProfile/Services/CustomerDataService.cs:29-86 | of the service's operations, none other than the delete can make a live profile vanish at the same instant |
| CacheProperties.StoreProfileDataKeepsProfilesLive | RedisProfile/Services/CustomerDataService.cs:80-84 | storing a profile never makes a live profile key dead |
| CacheProperties.TokenExpiryLeavesProfile | RedisProfile/Services/CustomerDataService.cs:35-39 | once the token has expired, the delete is a no-op and the user's profile hash stays live |
| CacheProperties.LoginWritesProfile | RedisProfile/Controllers/AccountController.cs:49-52 | after the login's two calls, the hash `profiles:1210` holds the sample record's six entries and the token still maps to 1210 as stored at `now` |
| CacheProperties.LogoutAfterLogin | RedisProfile/Controllers/AccountController.cs:74-85 | logging off within 5 minutes of the login removes exactly the token key and `profiles:1210` |
| CacheProperties.LoginLogoutScenario | RedisProfile/Controllers/AccountController.cs:43-85 | after the login the profile hash holds the sample's six entries, and a log-off within 5 minutes leaves the store minus exactly the token key and `profiles:1210` |
| Clr.IsSupportedType | RedisProfile/Services/ObjectExtensions.cs:48-55 | a type is supported (primitive, value type or string) if and only if it is not a class |
| Clr.SupportedTypes | RedisProfile/Services/ObjectExtensions.cs:48-55 | the only supported type that is not a value type is string |
| Clr.Default | RedisProfile/Services/ObjectExtensions.cs:32 | a fresh object's property has a value of its type, and it is null if and only if the type is not a value type |
| Clr.ParseBool | RedisProfile/Services/ObjectExtensions.cs:42 | text converts to true or false exactly when it equals "true" or "false" ignoring case |
| Clr.ChangeType | RedisProfile/Services/ObjectExtensions.cs:42 | a successful conversion yields a value of the target type; text converts to string unchanged; a long, bool or DateTime target converts exactly when Numerals.ParseLong, Clr.ParseBool or DateTimes.Parse accepts the text, to the value it gives; a class target never converts |
| Clr.ToText | RedisProfile/Services/ObjectExtensions.cs:20-21 | `ToString()` of a supported value: a long's text parses back to it, a bool is "True" or "False", a DateTime's text parses back to it, and a string is itself |
| Clr.ChangeTypeToText | RedisProfile/Services/ObjectExtensions.cs:20-21 | converting a value's `ToString()` text back to its type gives the value |
| DateTimes.Format | RedisProfile/Services/ObjectExtensions.cs:20-21 | `DateTime.ToString()` in the invariant culture is always 19 characters; DateTimes.ParseFormat states that it reads back |
| DateTimes.Parse | RedisProfile/Services/ObjectExtensions.cs:42 | accepts only 19-character text; DateTimes.ParseFormat states that it inverts Format |
| DateTimes.ParseFormat | RedisProfile/Services/BasicData.cs:18 | a date-time's invariant text parses back to the same date-time |
| DateTimes.FormatNewYear2000 | RedisProfile/Controllers/AccountController.cs:40 | 1 January 2000 is written "01/01/2000 00:00:00" |
| Codec.ToHashEntries | RedisProfile/Services/ObjectExtensions.cs:14-24 | every property with a non-null value contributes its `name -> text` entry, every entry comes from one, and there are at most as many entries as properties |
| Codec.EntryNamesDistinct | RedisProfile/Services/ObjectExtensions.cs:18-21 | with distinct property names, the entries have distinct names |
| Codec.EntryPerEmittedProperty | RedisProfile/Services/ObjectExtensions.cs:18-21 | each property has an entry under its name if and only if its value is emitted |
| Codec.EntryNamed | RedisProfile/Services/ObjectExtensions.cs:20-21 | an entry under a property's name holds that property's text |
| Codec.NullOmitted | RedisProfile/Services/ObjectExtensions.cs:19 | a null property has no entry under its name |
| Codec.FirstIndex | RedisProfile/Services/ObjectExtensions.cs:36 | finds the first entry with the given name, or reports that none has it |
| Codec.PropertyValue | RedisProfile/Services/ObjectExtensions.cs:36-42 | a successfully decoded property has the property's type |
| Codec.ConvertFromRedis | RedisProfile/Services/ObjectExtensions.cs:29-46 | decoding succeeds with well-typed values exactly when no property's conversion fails, and each value is that property's own decoding; a failure names a failing property |
| Codec.AbsentKeepsDefault | RedisProfile/Services/ObjectExtensions.cs:37-40 | a property with no entry keeps its default value |
| Codec.FirstMatchWins | RedisProfile/Services/ObjectExtensions.cs:36 | with duplicate names, the first matching entry decides the value |
| Codec.UnparseableFails | RedisProfile/Services/ObjectExtensions.cs:36-42 | when the first entry carrying a property's name does not convert to the property's type, the whole decode fails |
| Codec.IgnoresForeignEntries | RedisProfile/Services/ObjectExtensions.cs:34-43 | entries that name no property, added before or after, do not change the result |
| Codec.SameValuesSameResult | RedisProfile/Services/ObjectExtensions.cs:34-43 | two entry lists that decode every property alike decode alike |
| Codec.RoundTrip | RedisProfile/Services/ObjectExtensions.cs:14-46 | for supported properties with distinct names, decoding an object's entries gives back all of its values |
| BasicData.AllPropertiesSupported | RedisProfile/Services/BasicData.cs:6-18 | all 11 properties are of supported types and have distinct names |
| BasicData.ToHashEntries | RedisProfile/Services/ObjectExtensions.cs:14-24 | the encoder applied to the record's 11 properties; BasicData.EntriesLayout, BasicData.StringFieldPresence and BasicData.RoundTrip state what it yields |
| BasicData.ConvertFromRedis | RedisProfile/Services/ObjectExtensions.cs:29-46 | decoding into a record succeeds exactly when the generic decoding does, and then the record's fields are the decoded values |
| BasicData.RoundTrip | RedisProfile/Services/BasicData.cs:6-18 | every record decodes from its own hash entries to itself |
| BasicData.EntriesLayout | RedisProfile/Services/BasicData.cs:6-18 | the entries are the properties' entries in declaration order, and a null string contributes none |
| BasicData.EncodingSize | RedisProfile/Services/BasicData.cs:6-18 | a record encodes to between 3 and 11 entries |
| BasicData.ValueFieldsAlwaysPresent | RedisProfile/Services/BasicData.cs:6-18 | UserId, HasMarketingPermission and CreatedDate are always written, as decimal, "True"/"False" and the invariant date text |
| BasicData.StringFieldPresence | RedisProfile/Services/BasicData.cs:7-15 | a string property has an entry holding `v` if and only if its value is `v` |
| BasicData.StringFieldAbsent | RedisProfile/Services/BasicData.cs:7-15 | a null string property has no entry under its name |
| BasicData.DecodeEmpty | RedisProfile/Services/ObjectExtensions.cs:32-40 | an empty hash decodes to the default record: user id 0, no strings, no marketing permission, the minimum date |
| BasicData.LoginSampleRoundTrip | RedisProfile/Controllers/AccountController.cs:33-41 | the login's sample record encodes to its six entries, with "1210", "True" and "01/01/2000 00:00:00" among them, and they decode back to it |

## Left out

- GetConnection (RedisProfile/Services/CustomerDataService.cs:109-112): connecting and disposing are I/O. The store is a parameter of every operation.
- Connection failures, timeouts and concurrent clients: each operation is one atomic transition of a single store.
- `async`/`await`: each operation runs to completion.
- Command flags (DemandMaster, FireAndForget): they do not change the store's contents in a single-node model.
- FireAndForget errors: a failing fire-and-forget command would go unreported, and it is not modelled.
- The real clock: time is the `now` parameter, in whole minutes.
- Server-side key eviction: an expired key is kept in the map and treated as absent.
- `Guid.NewGuid` (RedisProfile/Controllers/AccountController.cs:44): randomness. The token is a parameter.
- Guid byte order: the "N" text is the 128-bit number in hex, so the order the .NET runtime writes a Guid's fields in is not modelled. No key property depends on it.
- Reflection (`GetProperties`, `GetValue`, `SetValue`, `Activator.CreateInstance`): replaced by an explicit list of properties in declaration order. .NET leaves the order of `GetProperties()` unspecified; the stored hash does not depend on it, but the exact entry sequences of BasicData.EntriesLayout and the first ensures of CacheProperties.LoginSampleRoundTrip do.
- Clr.ChangeType: a conversion into a class type always fails. The .NET conversion into a type that string is assignable to (such as `object`) is not modelled, because BasicData has no class-typed property.
- Numerals.ParseLong: the `(long)` cast of a RedisValue (RedisProfile/Services/CustomerDataService.cs:103) is StackExchange.Redis code, which is not part of this model. It is modelled by the Int64 integer-style grammar: an optional sign, then decimal digits in range. So a stored "+1210" resolves to 1210. The library's own parser may accept or reject other forms, and that is not modelled.
- Text encoding: strings are sequences of Unicode scalar values. StackExchange.Redis stores a .NET string as UTF-8, so a .NET string with an unpaired surrogate (such as "\uD800") comes back with U+FFFD in its place and does not survive the round trip through Redis. Codec.RoundTrip, BasicData.RoundTrip and BasicData.StringFieldPresence cover well-formed strings only.
- A null record: `StoreProfileDataAsync(token, null)` throws a NullReferenceException in ToHashEntries (RedisProfile/Services/ObjectExtensions.cs:16) once the token resolves. The model's record cannot be null, and no caller passes null.
- Culture: Int64, Boolean and DateTime text is modelled for the invariant culture only. Parsing accepts exactly the text the formatter writes, plus an optional sign and leading zeros (so also a signed zero such as "-0") for Int64, and any letter case for Boolean. The .NET leniency for surrounding whitespace and other date layouts is not modelled.
- DateTimes.Format: whole seconds only. Sub-second ticks and DateTime.Kind are not part of the model. So a DateTime with a fractional second would lose it through ToString(), and that loss is not modelled.
- Values of other property types (int, double, enums, structs): BasicData uses only long, string, bool and DateTime.
- The controllers and CustomPrincipalValidator: these are web plumbing. The service calls they make at login and log-off are modelled in `CacheProperties.LoginThenSpacedValidations`, `CacheProperties.LoginWritesProfile`, `CacheProperties.LogoutAfterLogin` and `CacheProperties.LoginLogoutScenario`.
- GetProfileDataAsync and ValidateProfileExistsAsync: the validator and MyProfileController call these service methods, but this service does not define them.
- NextUserKeyKey (RedisProfile/Services/CustomerDataService.cs:12): declared but never used.
- SupportInquiry, DummyCrmService, LoginViewModel and MyProfileIndexViewModel: not part of the cache core.
