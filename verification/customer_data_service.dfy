/**
 * CustomerDataService: the session cache. Each public operation is one
 * atomic transition of the store at clock reading `now`, returning the new
 * store and either its result or the error it ended in.
 */
module CustomerDataService {
  import opened Wrappers
  import opened Numerals
  import opened Keys
  import opened Store
  import BasicData

  /** A token mapping lives 5 minutes after it was last set or refreshed. */
  const DefaultTokenExpiryMinutes: nat := 5
  /** A profile hash lives 120 minutes after it was last written. */
  const DefaultDataExpiryMinutes: nat := 120

  /** The store after an operation, with its result or the error that ended it. */
  datatype Reply<T> = Reply(store: Store, result: Result<T, Error>)

  /** The token's key holds, live, the decimal text of a user id. */
  predicate Resolves(st: Store, now: int, token: Guid, userId: Long) {
    var k := TokenKey(token);
    Live(st, k, now) && st[k].value.Str? && st[k].value.s != "" && ParseLong(st[k].value.s) == Some(userId)
  }

  /** The token's key is missing, expired or holds the empty string (RedisValue.IsNullOrEmpty). */
  predicate Unresolved(st: Store, now: int, token: Guid) {
    var k := TokenKey(token);
    !Live(st, k, now) || st[k].value == Str("")
  }

  /**
   * GetUserId: reads the token's key; a missing or empty value resolves to
   * nothing. On a hit it first slides the TTL forward when asked, then casts
   * the value to a long, which fails on text that is not one.
   */
  function GetUserId(st: Store, now: int, token: Guid, refreshTtl: bool): (r: Reply<Option<Long>>)
    ensures r.result == Success(None) <==> Unresolved(st, now, token)
    ensures forall id: Long :: r.result == Success(Some(id)) <==> Resolves(st, now, token, id)
    ensures r.result == Failure(WrongType) <==> Live(st, TokenKey(token), now) && st[TokenKey(token)].value.Hash?
    ensures r.result.Failure? ==> r.result == Failure(WrongType) || r.result == Failure(NotAnInteger)
    ensures Unresolved(st, now, token) || !refreshTtl || r.result == Failure(WrongType) ==> r.store == st
    ensures refreshTtl && !Unresolved(st, now, token) && r.result != Failure(WrongType) ==>
              r.store == st[TokenKey(token) := st[TokenKey(token)].(expiry := At(now + DefaultTokenExpiryMinutes))]
  {
    var k := TokenKey(token);
    match StringGet(st, k, now)
    case Failure(e) => Reply(st, Failure(e))
    case Success(None) => Reply(st, Success(None))
    case Success(Some(v)) =>
      if v == "" then Reply(st, Success(None))
      else
        var st' := if refreshTtl then KeyExpire(st, k, DefaultTokenExpiryMinutes, now) else st;
        match ParseLong(v)
        case None => Reply(st', Failure(NotAnInteger))
        case Some(id) => Reply(st', Success(Some(id)))
  }

  /** StoreUserToken: sets the token's key to the user id with a fresh 5-minute TTL, overwriting anything there. */
  function StoreUserToken(st: Store, now: int, token: Guid, userId: Long): (r: Store)
    ensures TokenKey(token) in r && r[TokenKey(token)] == Entry(Str(FormatLong(userId)), At(now + DefaultTokenExpiryMinutes))
    ensures SameExcept(st, r, TokenKey(token))
  {
    StringSet(st, TokenKey(token), FormatLong(userId), DefaultTokenExpiryMinutes, now)
  }

  /** ValidateUserTokenExistsAsync: whether the token resolves, sliding its TTL when it does. */
  function ValidateUserTokenExists(st: Store, now: int, token: Guid): (r: Reply<bool>)
    ensures r.result == Success(true) <==> exists id: Long :: Resolves(st, now, token, id)
    ensures r.result == Success(false) <==> Unresolved(st, now, token)
    ensures Unresolved(st, now, token) ==> r.store == st
    ensures SameExcept(st, r.store, TokenKey(token))
  {
    var g := GetUserId(st, now, token, true);
    match g.result
    case Failure(e) => Reply(g.store, Failure(e))
    case Success(id) => Reply(g.store, Success(id.Some?))
  }

  /**
   * StoreProfileDataAsync: resolves the token without touching its TTL and,
   * when it resolves, upserts the record's entries into the profile hash and
   * gives that key a fresh 120-minute TTL.
   */
  function StoreProfileData(st: Store, now: int, token: Guid, data: BasicData.BasicData): (r: Reply<()>)
    ensures Unresolved(st, now, token) ==> r == Reply(st, Success(()))
    ensures r.result.Failure? ==> r.store == st
    ensures forall id: Long :: Resolves(st, now, token, id) ==> SameExcept(st, r.store, ProfileKey(id))
  {
    var g := GetUserId(st, now, token, false);
    match g.result
    case Failure(e) => Reply(st, Failure(e))
    case Success(None) => Reply(st, Success(()))
    case Success(Some(id)) =>
      WriteProfile(st, now, ProfileKey(id), BasicData.ToHashEntries(data))
  }

  /** HSET of the entries into the profile key, then EXPIRE of that key; a WRONGTYPE from HSET ends it. */
  function WriteProfile(st: Store, now: int, k: string, entries: seq<HashEntry>): (r: Reply<()>)
    ensures r.result.Failure? <==> |entries| > 0 && Live(st, k, now) && st[k].value.Str?
    ensures r.result.Failure? ==> r.store == st
    ensures SameExcept(st, r.store, k)
    ensures r.result.Success? && |entries| > 0 ==>
              && k in r.store && r.store[k].value.Hash?
              && r.store[k].expiry == At(now + DefaultDataExpiryMinutes)
  {
    match HashSet(st, k, entries, now)
    case Failure(e) => Reply(st, Failure(e))
    case Success(st') => Reply(KeyExpire(st', k, DefaultDataExpiryMinutes, now), Success(()))
  }

  /** DeleteUserDataAsync: resolves the token without touching its TTL and, when it resolves, deletes the token and profile keys. */
  function DeleteUserData(st: Store, now: int, token: Guid): (r: Reply<()>)
    ensures Unresolved(st, now, token) ==> r == Reply(st, Success(()))
    ensures r.result.Failure? ==> r.store == st
    ensures forall id: Long :: Resolves(st, now, token, id) ==>
              r == Reply(st - {TokenKey(token), ProfileKey(id)}, Success(()))
  {
    var g := GetUserId(st, now, token, false);
    match g.result
    case Failure(e) => Reply(st, Failure(e))
    case Success(None) => Reply(st, Success(()))
    case Success(Some(id)) =>
      var st' := KeyDelete(KeyDelete(st, TokenKey(token)), ProfileKey(id));
      assert st' == st - {TokenKey(token), ProfileKey(id)};
      Reply(st', Success(()))
  }
}
