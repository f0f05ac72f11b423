/**
 * What the session cache promises across operations: a stored token resolves,
 * validation slides its expiry, the profile write is an upsert that leaves
 * the token alone, deleting is idempotent, and nothing cascades.
 */
module CacheProperties {
  import opened Wrappers
  import opened Numerals
  import opened Keys
  import opened Store
  import opened CustomerDataService
  import BasicData
  import Codec

  /** The token's key holds the user id, due to expire one token lifetime after `last`. */
  predicate TokenStoredAt(st: Store, token: Guid, userId: Long, last: int) {
    TokenKey(token) in st && st[TokenKey(token)] == Entry(Str(FormatLong(userId)), At(last + DefaultTokenExpiryMinutes))
  }

  /** A token entry freshly written resolves to its user id while it is live. */
  lemma StoredTokenResolves(st: Store, token: Guid, userId: Long, last: int, now: int)
    requires TokenStoredAt(st, token, userId, last) && now < last + DefaultTokenExpiryMinutes
    ensures Resolves(st, now, token, userId)
  {
    ParseFormatLong(userId);
    assert |FormatLong(userId)| > 0;
  }

  /** After StoreUserToken, whatever the key held before, the token resolves to the id until its TTL runs out. */
  lemma StoreUserTokenThenGetUserId(st: Store, now: int, token: Guid, userId: Long, later: int, refreshTtl: bool)
    requires now <= later < now + DefaultTokenExpiryMinutes
    ensures TokenStoredAt(StoreUserToken(st, now, token, userId), token, userId, now)
    ensures GetUserId(StoreUserToken(st, now, token, userId), later, token, refreshTtl).result == Success(Some(userId))
  {
    StoredTokenResolves(StoreUserToken(st, now, token, userId), token, userId, now, later);
  }

  /** A validation of a stored token succeeds and restarts its lifetime at the validation time. */
  lemma ValidateSlides(st: Store, token: Guid, userId: Long, last: int, now: int)
    requires TokenStoredAt(st, token, userId, last) && last <= now < last + DefaultTokenExpiryMinutes
    ensures ValidateUserTokenExists(st, now, token).result == Success(true)
    ensures TokenStoredAt(ValidateUserTokenExists(st, now, token).store, token, userId, now)
    ensures SameExcept(st, ValidateUserTokenExists(st, now, token).store, TokenKey(token))
  {
    StoredTokenResolves(st, token, userId, last, now);
  }

  /** Clock readings that never leave a gap of a full token lifetime, starting after `last`. */
  predicate Spaced(last: int, times: seq<int>)
    decreases |times|
  {
    |times| == 0 || (last <= times[0] < last + DefaultTokenExpiryMinutes && Spaced(times[0], times[1..]))
  }

  /** The store and the replies after validating the token at each of the clock readings in turn. */
  function ValidateAll(st: Store, token: Guid, times: seq<int>): (r: (Store, seq<Result<bool, Error>>))
    ensures |r.1| == |times|
    decreases |times|
  {
    if |times| == 0 then (st, [])
    else
      var step := ValidateUserTokenExists(st, times[0], token);
      var rest := ValidateAll(step.store, token, times[1..]);
      (rest.0, [step.result] + rest.1)
  }

  /**
   * Sliding expiry: validations spaced less than a token lifetime apart all
   * succeed, and afterwards the token is due to expire one lifetime after the last.
   */
  lemma {:induction false} SlidingExpiryKeepsTokenAlive(st: Store, token: Guid, userId: Long, last: int, times: seq<int>)
    requires TokenStoredAt(st, token, userId, last) && Spaced(last, times)
    ensures forall i :: 0 <= i < |times| ==> ValidateAll(st, token, times).1[i] == Success(true)
    ensures |times| > 0 ==> TokenStoredAt(ValidateAll(st, token, times).0, token, userId, times[|times| - 1])
    decreases |times|
  {
    if |times| > 0 {
      var step := ValidateUserTokenExists(st, times[0], token);
      ValidateSlides(st, token, userId, last, times[0]);
      SlidingExpiryKeepsTokenAlive(step.store, token, userId, times[0], times[1..]);
      SlidingStep(st, token, userId, times);
    }
  }

  /** The inductive step of SlidingExpiryKeepsTokenAlive: the first validation's facts joined to the rest's. */
  lemma SlidingStep(st: Store, token: Guid, userId: Long, times: seq<int>)
    requires |times| > 0
    requires var step := ValidateUserTokenExists(st, times[0], token);
      && step.result == Success(true)
      && TokenStoredAt(step.store, token, userId, times[0])
      && (forall i :: 0 <= i < |times[1..]| ==> ValidateAll(step.store, token, times[1..]).1[i] == Success(true))
      && (|times[1..]| > 0 ==>
            TokenStoredAt(ValidateAll(step.store, token, times[1..]).0, token, userId, times[1..][|times[1..]| - 1]))
    ensures forall i :: 0 <= i < |times| ==> ValidateAll(st, token, times).1[i] == Success(true)
    ensures TokenStoredAt(ValidateAll(st, token, times).0, token, userId, times[|times| - 1])
  {
    var step := ValidateUserTokenExists(st, times[0], token);
    ValidateAllStep(st, token, times);
    var r := ValidateAll(st, token, times);
    var rest := ValidateAll(step.store, token, times[1..]);
    forall i | 0 <= i < |times|
      ensures r.1[i] == Success(true)
    {
      if i > 0 {
        assert r.1[i] == rest.1[i - 1];
      }
    }
    if |times| > 1 {
      assert times[1..][|times[1..]| - 1] == times[|times| - 1];
    } else {
      assert rest.0 == step.store;
    }
  }

  /** One step of ValidateAll: the first reply comes first, the rest follow from the stepped store. */
  lemma ValidateAllStep(st: Store, token: Guid, times: seq<int>)
    requires |times| > 0
    ensures var step := ValidateUserTokenExists(st, times[0], token);
      var r := ValidateAll(st, token, times);
      var rest := ValidateAll(step.store, token, times[1..]);
      && r.0 == rest.0
      && r.1[0] == step.result
      && forall i :: 1 <= i < |times| ==> r.1[i] == rest.1[i - 1]
  {
  }

  /** A token logged in and then validated at spaced intervals stays valid at every one of them. */
  lemma LoginThenSpacedValidations(st: Store, now: int, token: Guid, userId: Long, times: seq<int>)
    requires Spaced(now, times)
    ensures forall i :: 0 <= i < |times| ==>
              ValidateAll(StoreUserToken(st, now, token, userId), token, times).1[i] == Success(true)
  {
    SlidingExpiryKeepsTokenAlive(StoreUserToken(st, now, token, userId), token, userId, now, times);
  }

  /** After a full token lifetime without a refresh the token no longer resolves and validation leaves the store alone. */
  lemma TokenExpiresAfterGap(st: Store, token: Guid, userId: Long, last: int, now: int)
    requires TokenStoredAt(st, token, userId, last) && now >= last + DefaultTokenExpiryMinutes
    ensures GetUserId(st, now, token, true).result == Success(None)
    ensures ValidateUserTokenExists(st, now, token) == Reply(st, Success(false))
  {
  }

  /** GetUserId without a refresh never changes the store; with one, only the token key's expiry moves. */
  lemma GetUserIdTouchesOnlyTokenExpiry(st: Store, now: int, token: Guid, userId: Long)
    requires Resolves(st, now, token, userId)
    ensures GetUserId(st, now, token, false) == Reply(st, Success(Some(userId)))
    ensures var r := GetUserId(st, now, token, true);
      && r.result == Success(Some(userId))
      && TokenKey(token) in r.store
      && r.store[TokenKey(token)].value == st[TokenKey(token)].value
      && r.store[TokenKey(token)].expiry == At(now + DefaultTokenExpiryMinutes)
      && SameExcept(st, r.store, TokenKey(token))
  {
  }

  /**
   * StoreProfileData with a resolved token: every encoded field lands in the
   * profile hash, fields the encoding lacks survive (an upsert), the profile
   * key gets a 120-minute TTL and the token entry keeps its expiry.
   */
  lemma StoreProfileDataUpserts(st: Store, now: int, token: Guid, userId: Long, data: BasicData.BasicData)
    requires Resolves(st, now, token, userId)
    requires !(Live(st, ProfileKey(userId), now) && st[ProfileKey(userId)].value.Str?)
    ensures var r := StoreProfileData(st, now, token, data);
      var k := ProfileKey(userId);
      var entries := BasicData.ToHashEntries(data);
      && r.result == Success(())
      && k in r.store && r.store[k].value.Hash?
      && r.store[k].expiry == At(now + DefaultDataExpiryMinutes)
      && (forall i :: 0 <= i < |entries| ==>
            entries[i].name in r.store[k].value.fields && r.store[k].value.fields[entries[i].name] == entries[i].value)
      && (Live(st, k, now) ==> forall f :: f in st[k].value.fields ==> f in r.store[k].value.fields)
      && (Live(st, k, now) ==>
            forall f :: f in st[k].value.fields && (forall i :: 0 <= i < |entries| ==> entries[i].name != f) ==>
              r.store[k].value.fields[f] == st[k].value.fields[f])
      && r.store[TokenKey(token)] == st[TokenKey(token)]
  {
    var k := ProfileKey(userId);
    var entries := BasicData.ToHashEntries(data);
    BasicData.EncodingSize(data);
    BasicData.AllPropertiesSupported();
    Codec.EntryNamesDistinct(BasicData.Properties, BasicData.Values(data));
    TokenAndProfileKeysDisjoint(token, userId);
    var previous := if Live(st, k, now) then st[k].value.fields else map[];
    PutFieldsStores(previous, entries);
    var r := StoreProfileData(st, now, token, data);
    assert r == WriteProfile(st, now, k, entries);
  }

  /** Storing a record with an Email writes it, and the token still resolves. */
  lemma StoreProfileDataWritesEmail(st: Store, now: int, token: Guid, userId: Long,
                                    data: BasicData.BasicData, email: string)
    requires Resolves(st, now, token, userId)
    requires !(Live(st, ProfileKey(userId), now) && st[ProfileKey(userId)].value.Str?)
    requires data.email == Some(email)
    ensures var r := StoreProfileData(st, now, token, data);
      var k := ProfileKey(userId);
      && Resolves(r.store, now, token, userId)
      && Live(r.store, k, now) && r.store[k].value.Hash?
      && "Email" in r.store[k].value.fields && r.store[k].value.fields["Email"] == email
  {
    StoreProfileDataUpserts(st, now, token, userId, data);
    BasicData.StringFieldPresence(data, 3, email);
    var entries := BasicData.ToHashEntries(data);
    var j :| 0 <= j < |entries| && entries[j] == HashEntry("Email", email);
  }

  /** Storing a record whose Email is null keeps a previously stored Email. */
  lemma StoreProfileDataKeepsEmail(st: Store, now: int, token: Guid, userId: Long,
                                   data: BasicData.BasicData, email: string)
    requires Resolves(st, now, token, userId)
    requires Live(st, ProfileKey(userId), now) && st[ProfileKey(userId)].value.Hash?
    requires "Email" in st[ProfileKey(userId)].value.fields && st[ProfileKey(userId)].value.fields["Email"] == email
    requires data.email == None
    ensures var r := StoreProfileData(st, now, token, data);
      var k := ProfileKey(userId);
      && r.result == Success(())
      && r.store[k].value.Hash?
      && "Email" in r.store[k].value.fields && r.store[k].value.fields["Email"] == email
  {
    BasicData.StringFieldAbsent(data, 3);
    StoreProfileDataUpserts(st, now, token, userId, data);
  }

  /**
   * The write is an upsert, not a replace: storing a record whose Email is
   * null over one whose Email was set leaves the old address in the hash.
   */
  lemma NullFieldKeepsStaleValue(st: Store, now: int, token: Guid, userId: Long,
                                 first: BasicData.BasicData, second: BasicData.BasicData, email: string)
    requires Resolves(st, now, token, userId)
    requires !(Live(st, ProfileKey(userId), now) && st[ProfileKey(userId)].value.Str?)
    requires first.email == Some(email) && second.email == None
    ensures var r1 := StoreProfileData(st, now, token, first);
      var r2 := StoreProfileData(r1.store, now, token, second);
      var k := ProfileKey(userId);
      && r2.result == Success(())
      && r2.store[k].value.Hash?
      && "Email" in r2.store[k].value.fields && r2.store[k].value.fields["Email"] == email
  {
    var r1 := StoreProfileData(st, now, token, first);
    StoreProfileDataWritesEmail(st, now, token, userId, first, email);
    StoreProfileDataKeepsEmail(r1.store, now, token, userId, second, email);
  }

  /** StoreProfileData against a profile key holding a string fails with WRONGTYPE and changes nothing. */
  lemma StoreProfileDataWrongType(st: Store, now: int, token: Guid, userId: Long, data: BasicData.BasicData)
    requires Resolves(st, now, token, userId)
    requires Live(st, ProfileKey(userId), now) && st[ProfileKey(userId)].value.Str?
    ensures StoreProfileData(st, now, token, data) == Reply(st, Failure(WrongType))
  {
    BasicData.EncodingSize(data);
  }

  /** After a successful DeleteUserData the token resolves to nothing, at any later time. */
  lemma DeleteThenUnresolved(st: Store, now: int, token: Guid, later: int)
    requires DeleteUserData(st, now, token).result.Success? && later >= now
    ensures Unresolved(DeleteUserData(st, now, token).store, later, token)
  {
  }

  /** Deleting twice: the second DeleteUserData is a no-op. */
  lemma DeleteTwiceIsNoOp(st: Store, now: int, token: Guid, later: int)
    requires DeleteUserData(st, now, token).result.Success? && later >= now
    ensures var st' := DeleteUserData(st, now, token).store;
      DeleteUserData(st', later, token) == Reply(st', Success(()))
  {
    DeleteThenUnresolved(st, now, token, later);
  }

  /** The public operations of the service. */
  datatype Operation =
    | StoreUserTokenOp(token: Guid, userId: Long)
    | ValidateOp(token: Guid)
    | StoreProfileOp(token: Guid, data: BasicData.BasicData)
    | DeleteOp(token: Guid)

  /** The store after running the operation at `now`. */
  function Apply(st: Store, now: int, op: Operation): Store {
    match op
    case StoreUserTokenOp(t, u) => StoreUserToken(st, now, t, u)
    case ValidateOp(t) => ValidateUserTokenExists(st, now, t).store
    case StoreProfileOp(t, d) => StoreProfileData(st, now, t, d).store
    case DeleteOp(t) => DeleteUserData(st, now, t).store
  }

  /** Only DeleteUserData removes a live profile: every other operation leaves it live. */
  lemma OnlyDeleteRemovesProfile(st: Store, now: int, op: Operation, userId: Long)
    requires !op.DeleteOp? && Live(st, ProfileKey(userId), now)
    ensures Live(Apply(st, now, op), ProfileKey(userId), now)
  {
    var k := ProfileKey(userId);
    match op
    case StoreUserTokenOp(t, u) =>
      TokenAndProfileKeysDisjoint(t, userId);
    case ValidateOp(t) =>
      TokenAndProfileKeysDisjoint(t, userId);
    case StoreProfileOp(t, d) =>
      StoreProfileDataKeepsProfilesLive(st, now, t, d, userId);
  }

  lemma StoreProfileDataKeepsProfilesLive(st: Store, now: int, token: Guid, data: BasicData.BasicData, userId: Long)
    requires Live(st, ProfileKey(userId), now)
    ensures Live(StoreProfileData(st, now, token, data).store, ProfileKey(userId), now)
  {
    var r := StoreProfileData(st, now, token, data);
    var g := GetUserId(st, now, token, false);
    if g.result.Success? && g.result.value.Some? {
      var id := g.result.value.value;
      BasicData.EncodingSize(data);
      assert r == WriteProfile(st, now, ProfileKey(id), BasicData.ToHashEntries(data));
    }
  }

  /**
   * No cascade: once the token has expired, the profile it led to stays live
   * on its own TTL, and DeleteUserData for that token can no longer reach it.
   */
  lemma TokenExpiryLeavesProfile(st: Store, now: int, token: Guid, userId: Long)
    requires !Live(st, TokenKey(token), now) && Live(st, ProfileKey(userId), now)
    ensures DeleteUserData(st, now, token) == Reply(st, Success(()))
    ensures Live(DeleteUserData(st, now, token).store, ProfileKey(userId), now)
  {
  }

  /**
   * The login and logout flow for the mocked user 1210: after storing the
   * token and the profile, the profile hash holds the six sample fields; a
   * logout while the token is live removes both keys and nothing else.
   */
  lemma LoginLogoutScenario(st: Store, now: int, token: Guid, later: int)
    requires !(Live(st, ProfileKey(1210), now) && st[ProfileKey(1210)].value.Str?)
    requires now <= later < now + DefaultTokenExpiryMinutes
    ensures var st1 := StoreUserToken(st, now, token, 1210);
      var r2 := StoreProfileData(st1, now, token, BasicData.LoginSample);
      var k := ProfileKey(1210);
      && r2.result == Success(())
      && k in r2.store && r2.store[k].value.Hash?
      && (forall i :: 0 <= i < |BasicData.LoginSampleEntries| ==>
            BasicData.LoginSampleEntries[i].name in r2.store[k].value.fields
            && r2.store[k].value.fields[BasicData.LoginSampleEntries[i].name] == BasicData.LoginSampleEntries[i].value)
      && DeleteUserData(r2.store, later, token) == Reply(r2.store - {TokenKey(token), k}, Success(()))
  {
    var st1 := StoreUserToken(st, now, token, 1210);
    LoginWritesProfile(st, now, token);
    var r2 := StoreProfileData(st1, now, token, BasicData.LoginSample);
    LogoutAfterLogin(st, now, token, later);
  }

  lemma LoginWritesProfile(st: Store, now: int, token: Guid)
    requires !(Live(st, ProfileKey(1210), now) && st[ProfileKey(1210)].value.Str?)
    ensures var st1 := StoreUserToken(st, now, token, 1210);
      var r2 := StoreProfileData(st1, now, token, BasicData.LoginSample);
      var k := ProfileKey(1210);
      && r2.result == Success(())
      && k in r2.store && r2.store[k].value.Hash?
      && (forall i :: 0 <= i < |BasicData.LoginSampleEntries| ==>
            BasicData.LoginSampleEntries[i].name in r2.store[k].value.fields
            && r2.store[k].value.fields[BasicData.LoginSampleEntries[i].name] == BasicData.LoginSampleEntries[i].value)
      && TokenStoredAt(r2.store, token, 1210, now)
  {
    var st1 := StoreUserToken(st, now, token, 1210);
    var k := ProfileKey(1210);
    TokenAndProfileKeysDisjoint(token, 1210);
    assert k in st1 <==> k in st;
    assert k in st ==> st1[k] == st[k];
    assert !(Live(st1, k, now) && st1[k].value.Str?);
    StoredTokenResolves(st1, token, 1210, now, now);
    StoreProfileDataUpserts(st1, now, token, 1210, BasicData.LoginSample);
    BasicData.LoginSampleRoundTrip();
    var entries := BasicData.ToHashEntries(BasicData.LoginSample);
    assert entries == BasicData.LoginSampleEntries;
    var r2 := StoreProfileData(st1, now, token, BasicData.LoginSample);
    assert r2.store[TokenKey(token)] == st1[TokenKey(token)];
  }

  lemma LogoutAfterLogin(st: Store, now: int, token: Guid, later: int)
    requires !(Live(st, ProfileKey(1210), now) && st[ProfileKey(1210)].value.Str?)
    requires now <= later < now + DefaultTokenExpiryMinutes
    ensures var st1 := StoreUserToken(st, now, token, 1210);
      var r2 := StoreProfileData(st1, now, token, BasicData.LoginSample);
      DeleteUserData(r2.store, later, token) == Reply(r2.store - {TokenKey(token), ProfileKey(1210)}, Success(()))
  {
    var st1 := StoreUserToken(st, now, token, 1210);
    var r2 := StoreProfileData(st1, now, token, BasicData.LoginSample);
    LoginWritesProfile(st, now, token);
    StoredTokenResolves(r2.store, token, 1210, now, later);
  }
}
